/** What earlier sessions have hashed under the same key.  The counters start over with every session,
    so a block sealed before checks again; it is let in exactly when its counter is the present one.
    A session stays what its log says as long as no archived block contradicts the log, which holds
    for any number of sessions whose logs extend one another, and for no others. */
module Archive {
  import opened Bytes
  import opened Timelock
  import opened Replay
  import opened LogUpdates
  import opened Freshness
  import opened Executed
  import opened Coherence
  import opened Collections

  // ---- What a session has hashed is what its log says ----

  /** The head carries the counter and the content that its index has after the log. */
  ghost predicate MadeAt(head: seq<byte>, txs: seq<Transaction>) {
    |head| == HEAD_BYTES
    && (U32(head, 4096) < PLACEHOLDER ==>
         && U32(head, 4100) == Times(txs, U32(head, 4096))
         && Says(head, U32(head, 4096), ReplayLog(InitialEntries(), txs)))
  }

  /** It does so at some point of the log. */
  ghost predicate MadeBy(head: seq<byte>, txs: seq<Transaction>) {
    exists n: nat :: n <= |txs| && MadeAt(head, txs[..n])
  }

  ghost predicate AllMade(heads: set<seq<byte>>, txs: seq<Transaction>) {
    forall head :: head in heads ==> MadeBy(head, txs)
  }

  lemma MadeNow(head: seq<byte>, txs: seq<Transaction>)
    requires MadeAt(head, txs)
    ensures MadeBy(head, txs)
  {
    hide MadeAt;
    assert txs[..|txs|] == txs;
  }

  lemma MadeLater(head: seq<byte>, txs: seq<Transaction>, txs': seq<Transaction>)
    requires MadeBy(head, txs) && txs <= txs'
    ensures MadeBy(head, txs')
  {
    hide MadeAt;
    var n: nat :| n <= |txs| && MadeAt(head, txs[..n]);
    assert txs'[..n] == txs[..n];
  }

  /** The latest content of an index, sealed under its present counter. */
  lemma LatestIsMade(mac: Mac, s: Session, txs: seq<Transaction>, md: nat)
    requires Faithful(mac, s, txs) && md < PLACEHOLDER
    ensures |s.latest| == |s.counters| == MD_BLOCKS && MadeAt(Head(s.latest[md], md, s.counters[md]), txs)
  {
    hide Fresh, Head, Says, ReplayLog, InitialEntries, Decoded, Times;
    FaithfulSizes(mac, s, txs);
    var head := Head(s.latest[md], md, s.counters[md]);
    HeadParts(s.latest[md], md, s.counters[md]);
    SaysIsContent(s.latest, ReplayLog(InitialEntries(), txs), head, md);
  }

  /** What a log block seals. */
  lemma SealedIsMade(mac: Mac, s: Session, tx: Transaction, t: Session, txs: seq<Transaction>, md: nat)
    requires LogStep(mac, s, tx, t) && Faithful(mac, t, txs) && md in Mds(tx.pbas) && md in s.cache.tags
    ensures MadeAt(t.cache.slots[FindTag(s.cache.tags, md)][..HEAD_BYTES], txs)
  {
    hide LogApplied, Faithful, Mds, MdOf, CounterOf, HashHolds, FindTag, Head, Says, ReplayLog, InitialEntries, Times;
    PlaceholderSlot(mac, s, tx, t, md);
    var b := t.cache.slots[FindTag(s.cache.tags, md)];
    HeadOf(b);
    HeadOfSealed(b);
    if md < PLACEHOLDER { LatestIsMade(mac, t, txs, md); }
  }

  lemma InitIsMade(mac: Mac, s: Session, t: Session)
    requires IsStart(s) && InitStep(s, t)
    ensures AllMade(t.issued, [])
  {
    hide InitContent, Head, Faithful, MadeAt, MadeBy, IsStart;
    StartIsFaithful(mac, s, t);
    CountersStart(s);
    forall head | head in t.issued
      ensures MadeBy(head, [])
    {
      var md: nat :| md < MD_BLOCKS && head == Head(InitContent(), md, s.counters[md]);
      if md < PLACEHOLDER {
        LatestIsMade(mac, t, [], md);
      } else {
        PlaceholderIsMade(InitContent(), md, s.counters[md]);
      }
      MadeNow(head, []);
    }
  }

  lemma PlaceholderIsMade(content: seq<byte>, md: u32, counter: u32)
    requires |content| == 4096 && md >= PLACEHOLDER
    ensures MadeAt(Head(content, md, counter), [])
  {
    hide Head;
    HeadParts(content, md, counter);
  }

  lemma CountersStart(s: Session)
    requires IsStart(s)
    ensures s.issued == {} && |s.counters| == MD_BLOCKS
  {
  }

  lemma StepIsMade(mac: Mac, s: Session, e: Event, t: Session, txs: seq<Transaction>)
    requires AllMade(s.issued, txs) && Step(mac, s, e, t) && !e.Init? && Faithful(mac, t, txs + StepTxs(e))
    ensures AllMade(t.issued, txs + StepTxs(e))
  {
    hide LogApplied, Faithful, Mds, FindTag, MadeAt, MadeBy, Updated, TestSays;
    if e.Logged? {
      forall head | head in t.issued
        ensures MadeBy(head, txs + [e.tx])
      {
        if head in s.issued {
          MadeLater(head, txs, txs + [e.tx]);
        } else {
          var md :| md in Mds(e.tx.pbas) && md in s.cache.tags
                    && head == t.cache.slots[FindTag(s.cache.tags, md)][..HEAD_BYTES];
          SealedIsMade(mac, s, e.tx, t, txs + [e.tx], md);
          MadeNow(head, txs + [e.tx]);
        }
      }
    } else {
      assert txs + [] == txs;
    }
  }

  /** Everything a session hashes carries the counter and the content that its index has at some
      point of the log. */
  lemma {:induction false} IssuedIsMade(mac: Mac, states: seq<Session>, events: seq<Event>)
    requires Run(mac, states, events) && OnTheDisk(events) && Fits(states[0].archive, LoggedTxs(events))
    ensures AllMade(states[|events|].issued, LoggedTxs(events))
    decreases |events|
  {
    hide Faithful, Fits, Step, IsStart, InitStep, Unforged, InRange, AllMade;
    var n := |events| - 1;
    var before := LoggedTxs(events[..n]);
    if n == 0 {
      FirstStep(mac, states, events);
      InitIsMade(mac, states[0], states[1]);
      assert events[n].Init? && before == [] && before + [] == before;
    } else {
      RunBefore(mac, states, events, n);
      assert OnTheDisk(events[..n]);
      LoggedBefore(states[0].archive, events, n);
      IssuedIsMade(mac, states[..n + 1], events[..n]);
      LatestIsExecuted(mac, states, events);
      StepIsMade(mac, states[n], events[n], states[n + 1], before);
    }
  }

  // ---- Logs that extend one another ----

  lemma {:induction false} TimesGrow(txs: seq<Transaction>, lo: nat, hi: nat, md: nat)
    requires lo <= hi <= |txs|
    ensures Times(txs[..lo], md) <= Times(txs[..hi], md)
    decreases hi
  {
    hide Mds;
    if lo < hi {
      TimesGrow(txs, lo, hi - 1, md);
      assert txs[..hi] == txs[..hi - 1] + [txs[hi - 1]];
      TimesAppend(txs[..hi - 1], txs[hi - 1], md);
    }
  }

  /** Where the counter of a metadata block stands still, so do its entries. */
  lemma {:induction false} QuietStretch(txs: seq<Transaction>, lo: nat, hi: nat, q: nat)
    requires lo <= hi <= |txs| && q < TOTAL_BLOCKS && Times(txs[..lo], q / 512) == Times(txs[..hi], q / 512)
    ensures ReplayLog(InitialEntries(), txs[..lo])[q] == ReplayLog(InitialEntries(), txs[..hi])[q]
    decreases hi
  {
    hide Mds, ReplayLog, InitialEntries, Times, Execute;
    if lo < hi {
      var most, tx := txs[..hi - 1], txs[hi - 1];
      assert txs[..hi] == most + [tx];
      TimesAppend(most, tx, q / 512);
      TimesGrow(txs, lo, hi - 1, q / 512);
      QuietStretch(txs, lo, hi - 1, q);
      ReplayAppend(InitialEntries(), most, tx);
      NamedMd(tx.pbas, q);
      UnnamedStays(ReplayLog(InitialEntries(), most), tx.pbas, tx.keep, tx.now, q);
    }
  }

  lemma SameCounterSameContent(txs: seq<Transaction>, a: nat, b: nat, head: seq<byte>)
    requires a <= |txs| && b <= |txs| && MadeAt(head, txs[..a])
    ensures FitsAt(head, txs[..b])
  {
    hide ReplayLog, InitialEntries, Times, EntryAt, Word4;
    var md := U32(head, 4096);
    if md < PLACEHOLDER && U32(head, 4100) == Times(txs[..b], md) {
      forall i: nat | i < 512
        ensures EntryAt(head, 8 * i) == ReplayLog(InitialEntries(), txs[..b])[512 * md + i]
      {
        EntryOf(md, i);
        if a <= b { QuietStretch(txs, a, b, 512 * md + i); } else { QuietStretch(txs, b, a, 512 * md + i); }
      }
    }
  }

  /** One log is the beginning of the other. */
  predicate Comparable(a: seq<Transaction>, b: seq<Transaction>) { a <= b || b <= a }

  /** What one log has made contradicts no comparable log. */
  lemma MadeFits(head: seq<byte>, txs: seq<Transaction>, txs': seq<Transaction>, n: nat)
    requires MadeBy(head, txs) && Comparable(txs, txs') && n <= |txs'|
    ensures FitsAt(head, txs'[..n])
  {
    hide MadeAt, FitsAt;
    var k: nat :| k <= |txs| && MadeAt(head, txs[..k]);
    var long := if txs <= txs' then txs' else txs;
    assert long[..k] == txs[..k] && long[..n] == txs'[..n];
    SameCounterSameContent(long, k, n, head);
  }

  // ---- Any number of sessions under one key ----

  datatype Life = Life(states: seq<Session>, events: seq<Event>)

  /** Session k is a run, its archive comes from the sessions before it, and its log and theirs
      extend one another. */
  ghost predicate Succeeds(mac: Mac, lives: seq<Life>, k: nat)
    requires k < |lives|
  {
    && Run(mac, lives[k].states, lives[k].events) && OnTheDisk(lives[k].events)
    && (forall head :: head in lives[k].states[0].archive ==> exists j: nat :: j < k && IssuedIn(lives, j, head))
    && forall j: nat :: j < k ==> Comparable(LoggedTxs(lives[j].events), LoggedTxs(lives[k].events))
  }

  ghost predicate IssuedIn(lives: seq<Life>, j: nat, head: seq<byte>)
    requires j < |lives|
  {
    |lives[j].states| == |lives[j].events| + 1 && head in lives[j].states[|lives[j].events|].issued
  }

  ghost predicate Succession(mac: Mac, lives: seq<Life>) {
    forall k: nat :: k < |lives| ==> Succeeds(mac, lives, k)
  }

  /** However often the gatekeeper is restarted under one key, and whatever earlier block the driver
      sends, every session is what its log says, if the logs extend one another. */
  lemma {:induction false} EverySessionIsFaithful(mac: Mac, lives: seq<Life>, k: nat)
    requires Succession(mac, lives) && k < |lives|
    ensures Run(mac, lives[k].states, lives[k].events)
    ensures Fits(lives[k].states[0].archive, LoggedTxs(lives[k].events))
    ensures Faithful(mac, lives[k].states[|lives[k].events|], LoggedTxs(lives[k].events))
    decreases k
  {
    hide Run, OnTheDisk, FitsAt, Faithful, LoggedTxs, MadeBy, Comparable;
    assert Succeeds(mac, lives, k);
    RunLength(mac, lives[k].states, lives[k].events);
    var archive, txs := lives[k].states[0].archive, LoggedTxs(lives[k].events);
    forall head, n: nat | head in archive && n <= |txs|
      ensures FitsAt(head, txs[..n])
    {
      var j: nat :| j < k && IssuedIn(lives, j, head);
      assert Succeeds(mac, lives, j);
      EverySessionIsFaithful(mac, lives, j);
      IssuedIsMade(mac, lives[j].states, lives[j].events);
      MadeFits(head, LoggedTxs(lives[j].events), txs, n);
    }
    LatestIsExecuted(mac, lives[k].states, lives[k].events);
  }

  // ---- Exactly when a session can be led astray ----

  /** The run goes on with batches only. */
  ghost predicate GoesOn(mac: Mac, states: seq<Session>, events: seq<Event>, states': seq<Session>,
                         events': seq<Event>) {
    && Run(mac, states', events') && |states'| == |events'| + 1 && states <= states' && events <= events'
    && forall i :: |events| <= i < |events'| ==> events'[i].Batch? && |events'[i].blocks| <= 5
  }

  /** Whatever the driver sends next, the cache stays fresh. */
  ghost predicate StaysFresh(mac: Mac, states: seq<Session>, events: seq<Event>) {
    forall states', events' :: GoesOn(mac, states, events, states', events') ==> Fresh(mac, states'[|events'|])
  }

  lemma {:induction false} BatchesKeepFaithful(mac: Mac, states: seq<Session>, events: seq<Event>,
                                               states': seq<Session>, events': seq<Event>, n: nat)
    requires GoesOn(mac, states, events, states', events') && |events| <= n <= |events'|
    requires |states| == |events| + 1 && Faithful(mac, states[|events|], LoggedTxs(events))
    requires forall head :: head in states[|events|].archive ==> FitsAt(head, LoggedTxs(events))
    ensures Faithful(mac, states'[n], LoggedTxs(events)) && states'[n].archive == states[|events|].archive
    decreases n
  {
    hide Faithful, FitsAt, Step, IsStart, HeadTrue, Unforged, LoggedTxs;
    if n == |events| {
      assert states'[n] == states[n];
    } else {
      var m := n - 1;
      var txs := LoggedTxs(events);
      BatchesKeepFaithful(mac, states, events, states', events', m);
      forall head | head in states'[m].archive
        ensures HeadTrue(states'[m], head)
      {
        FitsIffTrue(mac, states'[m], txs, head);
      }
      assert Step(mac, states'[m], events'[m], states'[m + 1]);
      assert Unforged(mac, states'[m], events'[m].blocks);
      StepKeepsFaithful(mac, states'[m], events'[m], states'[m + 1], txs);
      assert txs + [] == txs;
      BatchKeepsArchive(mac, states'[m], events'[m], states'[m + 1]);
    }
  }

  lemma BatchKeepsArchive(mac: Mac, s: Session, e: Event, t: Session)
    requires Step(mac, s, e, t) && e.Batch?
    ensures t.archive == s.archive
  {
    hide Updated;
  }

  /** The block that a head and its digest make up. */
  ghost function BlockOf(mac: Mac, head: seq<byte>): Slot
    requires |head| == HEAD_BYTES
  {
    head + mac(head)
  }

  lemma BlockOfParts(mac: Mac, head: seq<byte>)
    requires |head| == HEAD_BYTES
    ensures
      var b := BlockOf(mac, head);
      && HashHolds(mac, b) && b[..HEAD_BYTES] == head && b[..4096] == head[..4096]
      && MdOf(b) == U32(head, 4096) && CounterOf(b) == U32(head, 4100)
  {
    hide Word4;
    var b := BlockOf(mac, head);
    assert b[..HEAD_BYTES] == head && b[HEAD_BYTES..] == mac(head);
  }

  /** The current block of an index, which a session that records its contents can always be sent. */
  ghost function CurrentBlock(mac: Mac, s: Session, md: nat): Slot
    requires Recorded(s) && md < PLACEHOLDER
  {
    var head := Head(s.latest[md], md, s.counters[md]);
    HeadParts(s.latest[md], md, s.counters[md]);
    BlockOf(mac, head)
  }

  lemma CurrentBlockIsCurrent(mac: Mac, s: Session, md: nat)
    requires Recorded(s) && md < PLACEHOLDER
    ensures MdOf(CurrentBlock(mac, s, md)) == md && Current(mac, s, CurrentBlock(mac, s, md), md)
  {
    hide MdOf, CounterOf, HashHolds, Head, BlockOf;
    HeadParts(s.latest[md], md, s.counters[md]);
    BlockOfParts(mac, Head(s.latest[md], md, s.counters[md]));
  }

  /** Five indices apart from six given ones. */
  lemma FiveOthers(tags: seq<nat>, md: nat) returns (mds: seq<nat>)
    requires |tags| == 5
    ensures |mds| == 5 && Distinct(mds)
    ensures forall i :: 0 <= i < 5 ==> mds[i] < PLACEHOLDER && mds[i] !in tags && mds[i] != md
  {
    var used: seq<nat> := [tags[0] / 5, tags[1] / 5, tags[2] / 5, tags[3] / 5, tags[4] / 5, md / 5];
    var k := Unused(used, 0);
    assert forall j :: 0 <= j < 5 ==> tags[j] / 5 == used[j];
    assert md / 5 == used[5];
    mds := [5 * k, 5 * k + 1, 5 * k + 2, 5 * k + 3, 5 * k + 4];
    forall i | 0 <= i < 5
      ensures mds[i] !in tags && mds[i] != md
    {
      assert mds[i] / 5 == k;
    }
  }

  /** A number from k on, at most |used| further, that is not used. */
  lemma {:induction false} Unused(used: seq<nat>, k: nat) returns (r: nat)
    ensures k <= r <= k + |used| && r !in used
    decreases |used|
  {
    r := k;
    if k in used {
      var i :| 0 <= i < |used| && used[i] == k;
      var rest := used[..i] + used[i + 1..];
      r := Unused(rest, k + 1);
      assert used == used[..i] + [k] + used[i + 1..];
    }
  }

  /** Five current blocks of other indices push out everything. */
  lemma PushAllOut(mac: Mac, s: Session, md: nat) returns (blocks: seq<Slot>)
    requires Fresh(mac, s) && Recorded(s) && md < PLACEHOLDER
    ensures |blocks| == 5 && Issued(mac, s, blocks) && Whole(s)
    ensures TakeBlocks(mac, s.counters, s.cache, blocks).ok
    ensures md !in TakeBlocks(mac, s.counters, s.cache, blocks).cache.tags
  {
    hide MdOf, CounterOf, HashHolds, TakeBlocks, Recorded, Head, BlockOf;
    ShapeOf(mac, s);
    var mds := FiveOthers(s.cache.tags, md);
    blocks := seq(5, i requires 0 <= i < 5 => CurrentBlock(mac, s, mds[i]));
    forall i | 0 <= i < 5
      ensures MdOf(blocks[i]) == mds[i] && Current(mac, s, blocks[i], mds[i])
    {
      CurrentBlockIsCurrent(mac, s, mds[i]);
    }
    CurrentIsAccepted(mac, s, blocks);
    forall j: nat | j < 5
      ensures TakeBlocks(mac, s.counters, s.cache, blocks).cache.tags[j] != md
    {
      FiveFill(mac, s.counters, s.cache, blocks, j);
    }
  }

  /** An archived head with the present counter and another content is let in once its index is not
      cached. */
  lemma StaleIsTaken(mac: Mac, s: Session, head: seq<byte>)
    requires Whole(s) && !HeadTrue(s, head) && U32(head, 4096) !in s.cache.tags
    ensures |head| == HEAD_BYTES
    ensures
      var b := BlockOf(mac, head);
      var c := s.cache;
      Updated(mac, s.counters, c, [b]) ==
        CacheState(c.tags[c.evict := U32(head, 4096)], c.slots[c.evict := b], (c.evict + 1) % 5)
    ensures !Fresh(mac, s.(cache := Updated(mac, s.counters, s.cache, [BlockOf(mac, head)])))
    ensures Holds(mac, Updated(mac, s.counters, s.cache, [BlockOf(mac, head)]), head)
  {
    hide MdOf, CounterOf, HashHolds, BlockOf, IssuedBounded;
    BlockOfParts(mac, head);
    var b := BlockOf(mac, head);
    OneBlock(mac, s.counters, s.cache, b);
    var t := s.(cache := Updated(mac, s.counters, s.cache, [b]));
    assert t.cache.tags[s.cache.evict] == MdOf(b) && t.cache.slots[s.cache.evict] == b;
    assert !Current(mac, t, b, MdOf(b));
    NotBefore(s.cache.tags, s.cache.evict, MdOf(b));
  }

  /** The cache scan finds the block of the head under its index. */
  ghost predicate Holds(mac: Mac, c: CacheState, head: seq<byte>) {
    && |head| == HEAD_BYTES && |c.tags| == |c.slots| == 5 && U32(head, 4096) in c.tags
    && c.slots[FindTag(c.tags, U32(head, 4096))] == BlockOf(mac, head)
  }

  lemma NotBefore(tags: seq<nat>, e: nat, md: nat)
    requires e < |tags| && md !in tags
    ensures FindTag(tags[e := md], md) == e
  {
    FindTagIs(tags[e := md], md, e);
  }

  lemma OneBlock(mac: Mac, counters: seq<u32>, c: CacheState, b: Slot)
    requires Shaped(c) && |counters| == MD_BLOCKS
    ensures TakeBlocks(mac, counters, c, [b]) == TakeBlock(mac, counters, Progress(c, [], true), b)
  {
    hide TakeBlock;
    assert [b][..0] == [];
  }

  /** The driver brings it in with two batches. */
  lemma Astray(mac: Mac, states: seq<Session>, events: seq<Event>, head: seq<byte>)
    returns (states': seq<Session>, events': seq<Event>)
    requires Run(mac, states, events) && Fresh(mac, states[|events|]) && Recorded(states[|events|])
    requires head in states[|events|].archive && !HeadTrue(states[|events|], head)
    ensures GoesOn(mac, states, events, states', events') && !Fresh(mac, states'[|events'|])
    ensures Holds(mac, states'[|events'|].cache, head) && Whole(states'[|events'|])
    ensures |events'| == |events| + 2
  {
    hide Fresh, Recorded, IsStart, TakeBlocks, U32, BlockOf, Updated, Unforged, Issued, Holds;
    var s := states[|events|];
    ShapeOf(mac, s);
    var others := PushAllOut(mac, s, U32(head, 4096));
    var c := UpdatedIs(mac, s, others);
    var t := s.(cache := c);
    IssuedIsVouched(mac, s, others);
    BatchKeepsShape(mac, s.counters, s.cache, others);
    RunGrows(mac, states, events, Batch(others), t);
    SameHead(s, t, head);
    StaleIsTaken(mac, t, head);
    var stale := [BlockOf(mac, head)];
    StaleIsUnforged(mac, t, head);
    var u := t.(cache := Updated(mac, t.counters, t.cache, stale));
    BatchKeepsShape(mac, t.counters, t.cache, stale);
    RunGrows(mac, states + [t], events + [Batch(others)], Batch(stale), u);
    states', events' := states + [t] + [u], events + [Batch(others)] + [Batch(stale)];
  }

  lemma UpdatedIs(mac: Mac, s: Session, blocks: seq<Slot>) returns (c: CacheState)
    requires Whole(s) && TakeBlocks(mac, s.counters, s.cache, blocks).ok
    ensures c == Updated(mac, s.counters, s.cache, blocks) == TakeBlocks(mac, s.counters, s.cache, blocks).cache
  {
    hide TakeBlocks;
    c := Updated(mac, s.counters, s.cache, blocks);
  }

  lemma SameHead(s: Session, t: Session, head: seq<byte>)
    requires s.counters == t.counters && s.latest == t.latest
    ensures HeadTrue(s, head) <==> HeadTrue(t, head)
  {
  }

  lemma StaleIsUnforged(mac: Mac, s: Session, head: seq<byte>)
    requires |head| == HEAD_BYTES && head in s.archive
    ensures Unforged(mac, s, [BlockOf(mac, head)])
  {
    BlockOfParts(mac, head);
  }

  /** A session that is what its log says stays fresh whatever the driver sends next if and only if no
      archived head carries a counter that the log has now reached with another content. */
  lemma StaysFreshIff(mac: Mac, states: seq<Session>, events: seq<Event>)
    requires Run(mac, states, events) && Faithful(mac, states[|events|], LoggedTxs(events))
    ensures StaysFresh(mac, states, events)
      <==> forall head :: head in states[|events|].archive ==> FitsAt(head, LoggedTxs(events))
  {
    hide Run, FitsAt, HeadTrue, Fresh, Recorded, Matches, LoggedTxs;
    RunLength(mac, states, events);
    var s, txs := states[|events|], LoggedTxs(events);
    if head :| head in s.archive && !FitsAt(head, txs) {
      FitsIffTrue(mac, s, txs, head);
      var states', events' := Astray(mac, states, events, head);
      assert !StaysFresh(mac, states, events);
    }
    if forall head :: head in s.archive ==> FitsAt(head, txs) {
      forall states', events' | GoesOn(mac, states, events, states', events')
        ensures Fresh(mac, states'[|events'|])
      {
        BatchesKeepFaithful(mac, states, events, states', events', |events'|);
      }
    }
  }

  lemma RunLength(mac: Mac, states: seq<Session>, events: seq<Event>)
    requires Run(mac, states, events)
    ensures |states| == |events| + 1
  {
  }

  /** At no point of the run can the driver lead the session astray. */
  ghost predicate NeverAstray(mac: Mac, states: seq<Session>, events: seq<Event>)
    requires |states| == |events| + 1
  {
    forall n: nat :: 0 < n <= |events| ==> StaysFresh(mac, states[..n + 1], events[..n])
  }

  lemma FitsMore(archive: set<seq<byte>>, txs: seq<Transaction>, more: seq<Transaction>)
    requires Fits(archive, txs) && |more| <= 1 && forall head :: head in archive ==> FitsAt(head, txs + more)
    ensures Fits(archive, txs + more)
  {
    hide FitsAt;
    var all := txs + more;
    forall head, n: nat | head in archive && n <= |all|
      ensures FitsAt(head, all[..n])
    {
      if n <= |txs| { assert all[..n] == txs[..n]; } else { assert all[..n] == all; }
    }
  }

  lemma {:induction false} FitsIfNeverAstray(mac: Mac, states: seq<Session>, events: seq<Event>)
    requires Run(mac, states, events) && OnTheDisk(events) && NeverAstray(mac, states, events)
    ensures Fits(states[0].archive, LoggedTxs(events)) && Faithful(mac, states[|events|], LoggedTxs(events))
    decreases |events|
  {
    hide Faithful, Fits, FitsAt, Step, IsStart, InitStep, Unforged, InRange, ArchiveTrue, StaysFresh;
    var n := |events| - 1;
    var archive, before := states[0].archive, LoggedTxs(events[..n]);
    assert states[..n + 1 + 1] == states && events[..n + 1] == events;
    if n == 0 {
      FirstStep(mac, states, events);
      StartIsFaithful(mac, states[0], states[1]);
      assert events[n].Init? && before == [] && before + [] == before;
      NothingFits(archive);
    } else {
      RunBefore(mac, states, events, n);
      assert OnTheDisk(events[..n]);
      forall k: nat | 0 < k <= n
        ensures StaysFresh(mac, states[..n + 1][..k + 1], events[..n][..k])
      {
        assert states[..n + 1][..k + 1] == states[..k + 1] && events[..n][..k] == events[..k];
      }
      FitsIfNeverAstray(mac, states[..n + 1], events[..n]);
      ArchiveStays(mac, states, events, n);
      FittingArchiveIsTrue(mac, states[n], before);
      StepKeepsFaithful(mac, states[n], events[n], states[n + 1], before);
    }
    ArchiveStays(mac, states, events, n + 1);
    StaysFreshIff(mac, states, events);
    FitsMore(archive, before, StepTxs(events[n]));
  }

  lemma NothingFits(archive: set<seq<byte>>)
    ensures (forall head :: head in archive ==> FitsAt(head, [])) ==> Fits(archive, [])
  {
    hide FitsAt;
  }

  /** The exact condition: at no point of a run can the driver lead the session astray if and only if
      every archived head whose counter the session reaches has the content that the log gives its
      index there. */
  lemma NeverAstrayIff(mac: Mac, states: seq<Session>, events: seq<Event>)
    requires Run(mac, states, events) && OnTheDisk(events)
    ensures NeverAstray(mac, states, events) <==> Fits(states[0].archive, LoggedTxs(events))
  {
    hide Faithful, Fits, FitsAt, Run, OnTheDisk, StaysFresh, LoggedTxs;
    RunLength(mac, states, events);
    if NeverAstray(mac, states, events) { FitsIfNeverAstray(mac, states, events); }
    if Fits(states[0].archive, LoggedTxs(events)) {
      forall n: nat | 0 < n <= |events|
        ensures StaysFresh(mac, states[..n + 1], events[..n])
      {
        PrefixStaysFresh(mac, states, events, n);
      }
    }
  }

  lemma PrefixStaysFresh(mac: Mac, states: seq<Session>, events: seq<Event>, n: nat)
    requires Run(mac, states, events) && OnTheDisk(events) && Fits(states[0].archive, LoggedTxs(events))
    requires 0 < n <= |events|
    ensures StaysFresh(mac, states[..n + 1], events[..n])
  {
    hide Faithful, FitsAt, Step, IsStart, StaysFresh, LoggedTxs;
    RunBefore(mac, states, events, n);
    assert OnTheDisk(events[..n]);
    LoggedBefore(states[0].archive, events, n);
    LatestIsExecuted(mac, states[..n + 1], events[..n]);
    ArchiveStays(mac, states, events, n);
    var txs := LoggedTxs(events[..n]);
    assert txs[..|txs|] == txs;
    StaysFreshIff(mac, states[..n + 1], events[..n]);
  }
}
