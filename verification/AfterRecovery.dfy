/** The driver's picture after a recovery.  The gatekeeper has blocks cached, the driver takes none of
    them for cached; from then on what it takes for cached is, as long as it marks what it has sent
    before it takes back what was pushed out. */
module AfterRecovery {
  import opened Bytes
  import opened Replay
  import opened LogUpdates
  import opened Freshness
  import opened Coherence
  import opened Turns
  import opened Residency
  import opened Collections

  // ---- Recovery, seen from the driver ----

  /** Every copy the driver holds is the last block hashed. */
  ghost predicate AllCurrent(mac: Mac, s: Session, d: Driver) {
    && Held(d) && Proper(mac, s, d)
    && forall m: nat :: m < PLACEHOLDER ==> Current(mac, s, d.copies[m], m)
  }

  /** What holds between two steps of the replay. */
  ghost predicate Recovering(mac: Mac, s: Session, d: Driver) {
    Fresh(mac, s) && AllCurrent(mac, s, d) && SlotsKnown(mac, s) && PlaceholdersHarmless(s.cache)
  }

  /** The updated blocks that come back after a replayed log block. */
  ghost function Refreshed(d: Driver, c: CacheState, mds: set<nat>): (r: Driver)
    requires Held(d) && |c.slots| == |c.tags|
    ensures Held(r) && r.member == d.member
  {
    Driver(d.member, seq(MD_BLOCKS, m requires 0 <= m < MD_BLOCKS =>
      if m in mds && m in c.tags then c.slots[FindTag(c.tags, m)] else d.copies[m]))
  }

  /** One step: the copies asked for go in, the log block is executed, the updated blocks come back. */
  ghost predicate RecoveryStep(mac: Mac, s: Session, d: Driver, sent: seq<nat>, tx: Transaction, t: Session,
                               e: Driver) {
    && Held(d) && Whole(s) && (forall i :: 0 <= i < |sent| ==> sent[i] < PLACEHOLDER)
    && var p := TakeBlocks(mac, s.counters, s.cache, CopiesOf(d, sent));
    && p.ok && LogStep(mac, s.(cache := p.cache), tx, t)
    && e == Refreshed(d, t.cache, Mds(tx.pbas))
  }

  lemma CopiesAreIssued(mac: Mac, s: Session, d: Driver, sent: seq<nat>)
    requires AllCurrent(mac, s, d) && forall i :: 0 <= i < |sent| ==> sent[i] < PLACEHOLDER
    ensures Issued(mac, s, CopiesOf(d, sent))
  {
    hide MdOf, CounterOf, HashHolds;
    var blocks := CopiesOf(d, sent);
    forall i | 0 <= i < |blocks|
      ensures blocks[i][..HEAD_BYTES] in s.issued
    {
      assert Current(mac, s, d.copies[sent[i]], sent[i]);
    }
  }

  lemma BatchKeepsRecovering(mac: Mac, s: Session, d: Driver, sent: seq<nat>)
    requires Recovering(mac, s, d) && Whole(s) && forall i :: 0 <= i < |sent| ==> sent[i] < PLACEHOLDER
    ensures Recovering(mac, s.(cache := TakeBlocks(mac, s.counters, s.cache, CopiesOf(d, sent)).cache), d)
  {
    hide Fresh, SlotsKnown, PlaceholdersHarmless, TakeBlocks, CopiesOf, Current, MdOf, Issued, Known;
    var blocks := CopiesOf(d, sent);
    CopiesAreIssued(mac, s, d, sent);
    IssuedIsVouched(mac, s, blocks);
    BlocksKeepFresh(mac, s, blocks);
    SlotsStayKnown(mac, s, blocks);
    var c := TakeBlocks(mac, s.counters, s.cache, blocks).cache;
    KnownAnyCache(mac, s, c, d);
    forall m: nat | m < PLACEHOLDER
      ensures Current(mac, s.(cache := c), d.copies[m], m)
    {
      CurrentAnyCache(mac, s, c, m);
    }
  }

  lemma RefreshedCopyAt(mac: Mac, s: Session, d: Driver, tx: Transaction, t: Session, m: nat)
    requires Fresh(mac, s) && AllCurrent(mac, s, d) && LogStep(mac, s, tx, t) && m < MD_BLOCKS
    ensures
      var b := Refreshed(d, t.cache, Mds(tx.pbas)).copies[m];
      && MdOf(b) == m && Known(mac, t, b) && (m < PLACEHOLDER ==> Current(mac, t, b, m))
  {
    hide LogApplied, Mds, MdOf, CounterOf, HashHolds, FindTag, IssuedBounded;
    LogKeepsFresh(mac, s, tx, t);
    CountersAfterLog(mac, s, tx, t, m);
    assert Known(mac, s, d.copies[m]);
    if m in Mds(tx.pbas) && m in s.cache.tags {
      PlaceholderSlot(mac, s, tx, t, m);
      var i := FindTag(t.cache.tags, m);
      if m < PLACEHOLDER { assert Current(mac, t, t.cache.slots[i], t.cache.tags[i]); }
    } else if m < PLACEHOLDER {
      assert Current(mac, s, d.copies[m], m);
    }
  }

  lemma LogKeepsRecovering(mac: Mac, s: Session, d: Driver, tx: Transaction, t: Session)
    requires Recovering(mac, s, d) && LogStep(mac, s, tx, t)
    ensures Recovering(mac, t, Refreshed(d, t.cache, Mds(tx.pbas)))
  {
    hide LogApplied, Mds, MdOf, HashHolds, FindTag, Fresh, Current, Known, AllOnes, Refreshed;
    LogKeepsFresh(mac, s, tx, t);
    forall m | 0 <= m < MD_BLOCKS
      ensures
        var b := Refreshed(d, t.cache, Mds(tx.pbas)).copies[m];
        MdOf(b) == m && Known(mac, t, b) && (m < PLACEHOLDER ==> Current(mac, t, b, m))
    {
      RefreshedCopyAt(mac, s, d, tx, t, m);
    }
    forall i | 0 <= i < 5
      ensures Known(mac, t, t.cache.slots[i])
      ensures t.cache.tags[i] == PLACEHOLDER ==>
        AllOnes(t.cache.slots[i][HEAD_BYTES..]) || MdOf(t.cache.slots[i]) == PLACEHOLDER
    {
      SlotKnownAfterLog(mac, s, tx, t, i);
    }
  }

  /** A fresh start, then the steps of the replay. */
  ghost predicate RecoveryRun(mac: Mac, ss: seq<Session>, ds: seq<Driver>) {
    && |ss| == |ds| > 0
    && (exists s :: IsStart(s) && InitStep(s, ss[0])) && DriverStart(mac, ds[0])
    && forall i :: 0 <= i < |ss| - 1 ==> ReplayedStep(mac, ss[i], ds[i], ss[i + 1], ds[i + 1])
  }

  ghost predicate ReplayedStep(mac: Mac, s: Session, d: Driver, t: Session, e: Driver) {
    exists sent, tx :: RecoveryStep(mac, s, d, sent, tx, t, e)
  }

  lemma StartIsRecovering(mac: Mac, s: Session, t: Session, d: Driver)
    requires NeverAllOnes(mac) && IsStart(s) && InitStep(s, t) && DriverStart(mac, d)
    ensures Recovering(mac, t, d)
  {
    hide InitStep, IsStart, Current, Fresh, Known, InitBlock, SlotsKnown, PlaceholdersHarmless;
    StartIsCoherent(mac, s, t, d);
    forall m: nat | m < PLACEHOLDER
      ensures Current(mac, t, d.copies[m], m)
    {
      assert SyncedAt(mac, t, d, m);
    }
  }

  /** Throughout a recovery with an honest driver its copies are the last blocks hashed. */
  lemma {:induction false} RecoveringThroughout(mac: Mac, ss: seq<Session>, ds: seq<Driver>)
    requires NeverAllOnes(mac) && RecoveryRun(mac, ss, ds)
    ensures Recovering(mac, ss[|ss| - 1], ds[|ds| - 1])
    decreases |ss|
  {
    hide Recovering, LogStep, InitStep, IsStart, DriverStart, TakeBlocks, CopiesOf, Refreshed;
    var n := |ss| - 1;
    if n == 0 {
      var s :| IsStart(s) && InitStep(s, ss[0]);
      StartIsRecovering(mac, s, ss[0], ds[0]);
    } else {
      var ss', ds' := ss[..n], ds[..n];
      forall i | 0 <= i < |ss'| - 1
        ensures ReplayedStep(mac, ss'[i], ds'[i], ss'[i + 1], ds'[i + 1])
      {
        assert ReplayedStep(mac, ss[i], ds[i], ss[i + 1], ds[i + 1]);
      }
      RecoveringThroughout(mac, ss', ds');
      assert ReplayedStep(mac, ss[n - 1], ds[n - 1], ss[n - 1 + 1], ds[n - 1 + 1]);
      var s, d := ss[n - 1], ds[n - 1];
      var sent, tx :| RecoveryStep(mac, s, d, sent, tx, ss[n], ds[n]);
      BatchKeepsRecovering(mac, s, d, sent);
      var p := TakeBlocks(mac, s.counters, s.cache, CopiesOf(d, sent));
      LogKeepsRecovering(mac, s.(cache := p.cache), d, tx, ss[n]);
    }
  }

  // ---- What holds after a recovery ----

  /** What the driver takes for cached is, and of what is not cached it holds the last block hashed. */
  ghost predicate WithinAt(mac: Mac, s: Session, d: Driver, m: nat)
    requires Held(d) && m < MD_BLOCKS
  {
    (d.member[m] ==> m in s.cache.tags) && (m !in s.cache.tags ==> Current(mac, s, d.copies[m], m))
  }

  ghost predicate Within(mac: Mac, s: Session, d: Driver) {
    && Held(d) && Fresh(mac, s) && Proper(mac, s, d) && SlotsKnown(mac, s) && PlaceholdersHarmless(s.cache)
    && forall m: nat :: m < PLACEHOLDER ==> WithinAt(mac, s, d, m)
  }

  /** build_cache clears every membership bit at its end. */
  ghost function Cleared(d: Driver): Driver { d.(member := seq(MD_BLOCKS, m => false)) }

  /** After a recovery the driver takes nothing for cached that is not. */
  lemma RecoveredIsWithin(mac: Mac, ss: seq<Session>, ds: seq<Driver>)
    requires NeverAllOnes(mac) && RecoveryRun(mac, ss, ds)
    ensures Within(mac, ss[|ss| - 1], Cleared(ds[|ds| - 1]))
  {
    hide Fresh, RecoveryRun, Current, MdOf, Known, PlaceholdersHarmless;
    RecoveringThroughout(mac, ss, ds);
    RunsTogether(mac, ss, ds);
    var s, d := ss[|ss| - 1], ds[|ds| - 1];
    forall m | 0 <= m < MD_BLOCKS
      ensures MdOf(Cleared(d).copies[m]) == m && Known(mac, s, Cleared(d).copies[m])
    {
      assert MdOf(d.copies[m]) == m && Known(mac, s, d.copies[m]);
    }
  }

  lemma RunsTogether(mac: Mac, ss: seq<Session>, ds: seq<Driver>)
    requires RecoveryRun(mac, ss, ds)
    ensures |ss| == |ds| > 0
  {
  }

  /** A coherent driver in particular. */
  lemma CoherentIsWithin(mac: Mac, s: Session, d: Driver)
    requires Coherent(mac, s, d)
    ensures Within(mac, s, d)
  {
    hide Fresh, Current, Proper, SlotsKnown, PlaceholdersHarmless;
    forall m: nat | m < PLACEHOLDER
      ensures WithinAt(mac, s, d, m)
    {
      assert SyncedAt(mac, s, d, m);
    }
  }

  // ---- When a batch is accepted ----

  /** The blocks the driver sends are for different indices, none the placeholder's. */
  ghost predicate SentWell(d: Driver, sent: seq<nat>) {
    Held(d) && Sendable(d, sent) && PLACEHOLDER !in sent
  }

  lemma SentWellInBounds(d: Driver, sent: seq<nat>)
    requires SentWell(d, sent)
    ensures Held(d) && forall i :: 0 <= i < |sent| ==> sent[i] < MD_BLOCKS
  {
  }

  lemma SentWellIs(mac: Mac, s: Session, d: Driver, sent: seq<nat>)
    requires Held(d) && Proper(mac, s, d) && SentWell(d, sent)
    ensures |sent| <= 5 && Distinct(sent) && forall i :: 0 <= i < |sent| ==> sent[i] < PLACEHOLDER && !d.member[sent[i]]
    ensures AreFor(CopiesOf(d, sent), sent) && Issued(mac, s, CopiesOf(d, sent))
  {
    hide MdOf, HashHolds;
    var blocks := CopiesOf(d, sent);
    forall i | 0 <= i < |sent|
      ensures sent[i] < PLACEHOLDER && MdOf(blocks[i]) == sent[i]
      ensures HashHolds(mac, blocks[i]) ==> blocks[i][..HEAD_BYTES] in s.issued
    {
      assert sent[i] in sent;
      assert Known(mac, s, d.copies[sent[i]]);
    }
  }

  lemma AcceptableIffCurrent(mac: Mac, s: Session, b: Slot)
    requires Fresh(mac, s) && MdOf(b) < PLACEHOLDER && Known(mac, s, b)
    ensures |s.counters| == MD_BLOCKS && (Acceptable(mac, s.counters, b) <==> Current(mac, s, b, MdOf(b)))
  {
    hide MdOf, CounterOf, HashHolds, SlotsCurrent;
    if Acceptable(mac, s.counters, b) { VouchedIsCurrent(mac, s, b); }
  }

  /** After a recovery a copy may be out of date while its block is cached.  The batch is accepted if
      and only if every block that takes a slot is the last one hashed; one that was cached and has
      been pushed out before its turn need not be. */
  lemma {:induction false} AcceptedIff(mac: Mac, s: Session, blocks: seq<Slot>, mds: seq<nat>)
    requires Fresh(mac, s) && Whole(s) && AreFor(blocks, mds) && Issued(mac, s, blocks)
    requires |mds| <= 5 && Distinct(mds) && forall i :: 0 <= i < |mds| ==> mds[i] < PLACEHOLDER
    ensures TakeBlocks(mac, s.counters, s.cache, blocks).ok
      <==> forall i: nat :: i < |mds| && Enters(s.cache, mds, i) ==> Current(mac, s, blocks[i], mds[i])
    decreases |mds|
  {
    hide MdOf, Current, Enters, Kept, Insertions, Acceptable, Turned, Fresh, HashHolds;
    if mds != [] {
      var n := |mds| - 1;
      var c, most, rest := s.cache, blocks[..n], mds[..n];
      var p := TakeBlocks(mac, s.counters, c, most);
      forall i: nat | i < n
        ensures Enters(c, mds, i) <==> Enters(c, rest, i)
        ensures most[i] == blocks[i] && rest[i] == mds[i]
      {
        assert mds == rest + [mds[n]];
        EntersBefore(c, rest, mds[n], i);
      }
      AcceptedIff(mac, s, most, rest);
      if p.ok {
        FreshTags(mac, s);
        BatchTurns(mac, s.counters, c, most, rest);
        OtherIsKept(c, rest, p, mds[n]);
        assert mds == rest + [mds[n]];
        EntersLast(c, rest, mds[n]);
        TurnedCount(c, rest, p);
        AcceptableIffCurrent(mac, s, blocks[n]);
        TakeBlockOk(mac, s.counters, p, blocks[n]);
      }
    }
  }

  lemma FreshTags(mac: Mac, s: Session)
    requires Fresh(mac, s)
    ensures TagsDistinct(s.cache.tags) && Whole(s)
  {
  }

  lemma TurnedCount(c: CacheState, mds: seq<nat>, p: Progress)
    requires Turned(c, mds, p)
    ensures |c.tags| == 5 && c.evict < 5 && |p.evicted| == Insertions(c, mds)
  {
  }

  lemma TakeBlockOk(mac: Mac, counters: seq<u32>, p: Progress, b: Slot)
    requires |p.cache.tags| == |p.cache.slots| == 5 && p.cache.evict < 5 && |counters| == MD_BLOCKS
    requires p.ok && MdOf(b) < MD_BLOCKS
    ensures TakeBlock(mac, counters, p, b).ok <==> MdOf(b) in p.cache.tags || Acceptable(mac, counters, b)
  {
  }

  // ---- What a served write keeps ----

  /** A block comes back exactly if it was cached and has not survived the insertions, and what comes
      back is the last block hashed. */
  lemma ComesBackIff(mac: Mac, s: Session, blocks: seq<Slot>, p: Progress, m: nat)
    requires Fresh(mac, s) && PlaceholdersHarmless(s.cache) && NeverAllOnes(mac)
    requires BatchShape(s.cache, blocks, p) && m < PLACEHOLDER
    ensures ComesBack(p.evicted, m) <==> m in s.cache.tags && !Kept(s.cache, m, |p.evicted|)
    ensures forall t :: 0 <= t < |p.evicted| && Real(p.evicted[t]) && MdOf(p.evicted[t]) == m ==>
      Current(mac, s, p.evicted[t], m)
  {
    hide MdOf, AllOnes, At, CounterOf, HashHolds, IssuedBounded;
    var c := s.cache;
    forall t: nat | t < |p.evicted| && Real(p.evicted[t]) && MdOf(p.evicted[t]) == m
      ensures Current(mac, s, p.evicted[t], m) && m in c.tags && Distance(c, m) == t
    {
      var j := At(c.evict, t);
      assert p.evicted[t] == c.slots[j];
      assert c.tags[j] != PLACEHOLDER ==> Current(mac, s, c.slots[j], c.tags[j]);
      DistanceIs(c, m, t);
    }
    if m in c.tags && !Kept(c, m, |p.evicted|) {
      DistanceReaches(c, m);
      var t := Distance(c, m);
      assert p.evicted[t] == c.slots[At(c.evict, t)];
      assert Current(mac, s, c.slots[At(c.evict, t)], m);
      CurrentIsReal(mac, s, p.evicted[t], m);
    }
  }

  ghost predicate ComesBack(evicted: seq<Slot>, m: nat) {
    exists t :: 0 <= t < |evicted| && Real(evicted[t]) && MdOf(evicted[t]) == m
  }

  /** The driver's view of one index after the reply, in either order. */
  lemma AfterReplyAt(d: Driver, sent: seq<nat>, evicted: seq<Slot>, markFirst: bool, m: nat)
    requires Held(d) && m < MD_BLOCKS && forall i :: 0 <= i < |sent| ==> sent[i] < MD_BLOCKS
    ensures
      var r := AfterReply(d, sent, evicted, markFirst);
      && Held(r)
      && r.member[m] == (if ComesBack(evicted, m) then !markFirst && m in sent else d.member[m] || m in sent)
      && if ComesBack(evicted, m) then
           exists t :: 0 <= t < |evicted| && Real(evicted[t]) && MdOf(evicted[t]) == m && r.copies[m] == evicted[t]
         else r.copies[m] == d.copies[m]
  {
    hide MdOf, Real, TakeBackAll;
    TakeBackAllAt(MarkSent(d, sent), evicted, m);
    TakeBackAllAt(d, evicted, m);
  }

  /** The block with this index was sent, skipped as cached and then pushed out. */
  ghost predicate LostAt(c: CacheState, sent: seq<nat>, m: nat)
    requires |c.tags| == 5 && c.evict < 5
  {
    exists i: nat :: i < |sent| && sent[i] == m && Lost(c, sent, i)
  }

  /** Whether a block is cached after the batch. */
  lemma CachedAfter(c: CacheState, sent: seq<nat>, p: Progress, m: nat)
    requires Turned(c, sent, p) && TagsDistinct(c.tags) && Distinct(sent) && m < PLACEHOLDER
    ensures m in p.cache.tags <==> if m in sent then !LostAt(c, sent, m) else Kept(c, m, |p.evicted|)
    ensures LostAt(c, sent, m) ==> m in sent && m in c.tags && !Kept(c, m, |p.evicted|)
    ensures m in sent && !LostAt(c, sent, m) && m !in c.tags ==> m in p.cache.tags
  {
    hide Turned, Insertions, Distance;
    TurnedCount(c, sent, p);
    if m in sent {
      var i: nat :| i < |sent| && sent[i] == m;
      OfBatchIsCached(c, sent, p, i);
    } else {
      OtherIsKept(c, sent, p, m);
    }
  }

  lemma BatchWithinAt(mac: Mac, s: Session, d: Driver, sent: seq<nat>, markFirst: bool, m: nat)
    requires Within(mac, s, d) && NeverAllOnes(mac) && SentWell(d, sent) && m < PLACEHOLDER && Whole(s)
    requires TakeBlocks(mac, s.counters, s.cache, CopiesOf(d, sent)).ok
    ensures
      var p := TakeBlocks(mac, s.counters, s.cache, CopiesOf(d, sent));
      var r := AfterReply(d, sent, p.evicted, markFirst);
      Held(r) && (WithinAt(mac, s.(cache := p.cache), r, m) <==> markFirst || !LostAt(s.cache, sent, m))
  {
    hide MdOf, Real, Current, TakeBlocks, AfterReply, Fresh, Proper, SlotsKnown, PlaceholdersHarmless, BatchShape;
    hide Kept, Turned, LostAt, ComesBack, NeverAllOnes, Sendable;
    SentWellInBounds(d, sent);
    var c, blocks := s.cache, CopiesOf(d, sent);
    var p := TakeBlocks(mac, s.counters, c, blocks);
    SentWellIs(mac, s, d, sent);
    FreshTags(mac, s);
    BatchHasShape(mac, s.counters, c, blocks);
    BatchTurns(mac, s.counters, c, blocks, sent);
    CachedAfter(c, sent, p, m);
    ComesBackIff(mac, s, blocks, p, m);
    AfterReplyAt(d, sent, p.evicted, markFirst, m);
    CurrentAnyCache(mac, s, p.cache, m);
    assert WithinAt(mac, s, d, m);
    NotKeptWhenAbsent(c, m, |p.evicted|);
    if m in sent { var i :| 0 <= i < |sent| && sent[i] == m; }
  }

  lemma NotKeptWhenAbsent(c: CacheState, m: nat, k: nat)
    requires |c.tags| == 5 && c.evict < 5
    ensures Kept(c, m, k) ==> m in c.tags
  {
  }

  lemma NoneLostIff(c: CacheState, sent: seq<nat>)
    requires |c.tags| == 5 && c.evict < 5 && forall i :: 0 <= i < |sent| ==> sent[i] < PLACEHOLDER
    ensures NoneLost(c, sent) <==> forall m: nat :: m < PLACEHOLDER ==> !LostAt(c, sent, m)
  {
    hide Lost;
    forall i: nat | i < |sent| && Lost(c, sent, i)
      ensures LostAt(c, sent, sent[i])
    {
    }
  }

  /** A batch that is accepted keeps the picture within the cache if and only if the driver marks
      before it takes back, or no block that was skipped as cached is pushed out by a later one. */
  lemma BatchKeepsWithinIff(mac: Mac, s: Session, d: Driver, sent: seq<nat>, markFirst: bool)
    requires Within(mac, s, d) && NeverAllOnes(mac) && SentWell(d, sent) && Whole(s)
    requires TakeBlocks(mac, s.counters, s.cache, CopiesOf(d, sent)).ok
    ensures
      var p := TakeBlocks(mac, s.counters, s.cache, CopiesOf(d, sent));
      Within(mac, s.(cache := p.cache), AfterReply(d, sent, p.evicted, markFirst))
      <==> markFirst || NoneLost(s.cache, sent)
  {
    hide MdOf, Real, Current, TakeBlocks, TakeBackAll, Fresh, BatchShape, Known, WithinAt, LostAt, NoneLost, Lost;
    hide SentWell, NeverAllOnes, SlotsKnown, PlaceholdersHarmless;
    SentWellInBounds(d, sent);
    var blocks := CopiesOf(d, sent);
    var p := TakeBlocks(mac, s.counters, s.cache, blocks);
    var r := AfterReply(d, sent, p.evicted, markFirst);
    SentWellIs(mac, s, d, sent);
    IssuedIsVouched(mac, s, blocks);
    BlocksKeepFresh(mac, s, blocks);
    SlotsStayKnown(mac, s, blocks);
    BatchHasShape(mac, s.counters, s.cache, blocks);
    EvictedKnown(mac, s, blocks, p);
    CopiesStayProper(mac, s, d, p.evicted);
    CopiesStayProper(mac, s, MarkSent(d, sent), p.evicted);
    KnownAnyCache(mac, s, p.cache, r);
    NoneLostIff(s.cache, sent);
    forall m: nat | m < PLACEHOLDER
      ensures Held(r) && (WithinAt(mac, s.(cache := p.cache), r, m) <==> markFirst || !LostAt(s.cache, sent, m))
    {
      BatchWithinAt(mac, s, d, sent, markFirst, m);
    }
  }

  lemma LogKeepsWithin(mac: Mac, s: Session, d: Driver, tx: Transaction, t: Session)
    requires Within(mac, s, d) && LogStep(mac, s, tx, t)
    ensures Within(mac, t, d)
  {
    hide LogApplied, MdOf, HashHolds, AllOnes, Fresh, CounterOf, Mds, FindTag;
    LogKeepsFresh(mac, s, tx, t);
    forall m: nat | m < PLACEHOLDER
      ensures WithinAt(mac, t, d, m)
    {
      assert WithinAt(mac, s, d, m);
      CountersAfterLog(mac, s, tx, t, m);
    }
    forall i | 0 <= i < 5
      ensures Known(mac, t, t.cache.slots[i])
      ensures t.cache.tags[i] == PLACEHOLDER ==>
        AllOnes(t.cache.slots[i][HEAD_BYTES..]) || MdOf(t.cache.slots[i]) == PLACEHOLDER
    {
      SlotKnownAfterLog(mac, s, tx, t, i);
    }
    forall m | 0 <= m < MD_BLOCKS
      ensures MdOf(d.copies[m]) == m && Known(mac, t, d.copies[m])
    {
      assert Known(mac, s, d.copies[m]);
    }
  }

  lemma {:induction false} ChecksKeepWithin(mac: Mac, states: seq<Session>, d: Driver, events: seq<Event>)
    requires Trace(mac, states, events) && Checks(events) && Within(mac, states[0], d)
    ensures Within(mac, states[|events|], d)
    decreases |events|
  {
    hide Within, LogStep, TestSays;
    if events != [] {
      var n := |events| - 1;
      TraceBefore(mac, states, events, n);
      ChecksKeepWithin(mac, states[..n + 1], d, events[..n]);
      assert Step(mac, states[n], events[n], states[n + 1]);
      if events[n].Logged? { LogKeepsWithin(mac, states[n], d, events[n].tx, states[n + 1]); }
    }
  }

  lemma SyncKeepsWithin(mac: Mac, s: Session, d: Driver)
    requires Within(mac, s, d)
    ensures Within(mac, s, Overlay(d, s.cache.slots))
  {
    hide MdOf, CounterOf, HashHolds, AllOnes, Known, Overlay, Proper, IssuedBounded;
    OverlayProper(mac, s, d, s.cache.slots);
    var r := Overlay(d, s.cache.slots);
    forall m: nat | m < PLACEHOLDER
      ensures WithinAt(mac, s, r, m)
    {
      assert WithinAt(mac, s, d, m);
      if m !in s.cache.tags {
        forall i | 0 <= i < 5
          ensures !Real(s.cache.slots[i]) || MdOf(s.cache.slots[i]) != m
        {
          if s.cache.tags[i] != PLACEHOLDER { assert Current(mac, s, s.cache.slots[i], s.cache.tags[i]); }
        }
        OverlayElsewhere(d, s.cache.slots, m);
      }
    }
  }

  /** The next thing the two do: a served write that loses no block, or SYNC. */
  ghost predicate KeepingStep(mac: Mac, s: Session, d: Driver, t: Session, e: Driver) {
    || (exists sent, events, markFirst :: KeepingWrite(mac, s, d, sent, events, markFirst, t, e))
    || (Held(d) && t == s && e == Overlay(d, s.cache.slots))
  }

  ghost predicate KeepingWrite(mac: Mac, s: Session, d: Driver, sent: seq<nat>, events: seq<Event>, markFirst: bool,
                               t: Session, e: Driver) {
    && WriteStep(mac, s, d, sent, events, markFirst, t, e) && SentWell(d, sent)
    && (markFirst || NoneLost(s.cache, sent))
  }

  lemma WriteKeepsWithin(mac: Mac, s: Session, d: Driver, sent: seq<nat>, events: seq<Event>, markFirst: bool,
                         t: Session, e: Driver)
    requires Within(mac, s, d) && NeverAllOnes(mac) && KeepingWrite(mac, s, d, sent, events, markFirst, t, e)
    ensures Within(mac, t, e)
  {
    hide Within, TakeBlocks, AfterReply, CopiesOf, NoneLost, Step, SentWell, NeverAllOnes, Sendable;
    WithinIsWhole(mac, s, d);
    SentWellInBounds(d, sent);
    BatchKeepsWithinIff(mac, s, d, sent, markFirst);
    var p := TakeBlocks(mac, s.counters, s.cache, CopiesOf(d, sent));
    var states :| Trace(mac, states, events) && states[0] == s.(cache := p.cache) && states[|events|] == t;
    ChecksKeepWithin(mac, states, e, events);
  }

  lemma WithinIsWhole(mac: Mac, s: Session, d: Driver)
    requires Within(mac, s, d)
    ensures Whole(s) && Held(d)
  {
  }

  /** A recovery, then served writes and SYNCs. */
  ghost predicate RecoveredRun(mac: Mac, s: Session, d: Driver, ss: seq<Session>, ds: seq<Driver>) {
    && |ss| == |ds| > 0 && ss[0] == s && ds[0] == Cleared(d)
    && forall i :: 0 <= i < |ss| - 1 ==> KeepingStep(mac, ss[i], ds[i], ss[i + 1], ds[i + 1])
  }

  /** After a recovery, over any run of writes and SYNCs, the driver takes nothing for cached that is
      not, and of what is not cached it holds the last block hashed. */
  lemma {:induction false} WithinThroughout(mac: Mac, ss0: seq<Session>, ds0: seq<Driver>, ss: seq<Session>,
                                            ds: seq<Driver>)
    requires NeverAllOnes(mac) && RecoveryRun(mac, ss0, ds0)
    requires RecoveredRun(mac, ss0[|ss0| - 1], ds0[|ds0| - 1], ss, ds)
    ensures Within(mac, ss[|ss| - 1], ds[|ds| - 1])
    decreases |ss|
  {
    hide Within, RecoveryRun, WriteStep, KeepingWrite, Overlay, NeverAllOnes, Cleared;
    RunsTogether(mac, ss0, ds0);
    var n := |ss| - 1;
    if n == 0 {
      RecoveredIsWithin(mac, ss0, ds0);
    } else {
      var ss', ds' := ss[..n], ds[..n];
      forall i | 0 <= i < |ss'| - 1
        ensures KeepingStep(mac, ss'[i], ds'[i], ss'[i + 1], ds'[i + 1])
      {
        assert KeepingStep(mac, ss[i], ds[i], ss[i + 1], ds[i + 1]);
      }
      WithinThroughout(mac, ss0, ds0, ss', ds');
      var s, d, t, e := ss[n - 1], ds[n - 1], ss[n], ds[n];
      assert KeepingStep(mac, ss[n - 1], ds[n - 1], ss[n - 1 + 1], ds[n - 1 + 1]);
      if sent, events, markFirst :| KeepingWrite(mac, s, d, sent, events, markFirst, t, e) {
        WriteKeepsWithin(mac, s, d, sent, events, markFirst, t, e);
      } else {
        SyncKeepsWithin(mac, s, d);
      }
    }
  }

  /** A write that loses a block while the driver takes back first leaves the bit of an absent block
      set. */
  lemma LosingWriteIsSeen(mac: Mac, s: Session, d: Driver, sent: seq<nat>, events: seq<Event>, t: Session, e: Driver)
    requires Within(mac, s, d) && NeverAllOnes(mac) && SentWell(d, sent)
    requires WriteStep(mac, s, d, sent, events, false, t, e) && !NoneLost(s.cache, sent)
    ensures Held(e) && exists m: nat :: m < PLACEHOLDER && m in sent && e.member[m] && m !in t.cache.tags
  {
    hide TakeBlocks, Fresh, Proper, SlotsKnown, PlaceholdersHarmless, CopiesOf, Step, NeverAllOnes, Current, Turned;
    hide Lost, Kept, BatchShape, ComesBack, AfterReply, WithinAt, Sendable;
    SentWellInBounds(d, sent);
    SentWellIs(mac, s, d, sent);
    FreshTags(mac, s);
    var c, blocks := s.cache, CopiesOf(d, sent);
    var p := TakeBlocks(mac, s.counters, c, blocks);
    BatchTurns(mac, s.counters, c, blocks, sent);
    BatchHasShape(mac, s.counters, c, blocks);
    var i: nat :| i < |sent| && Lost(c, sent, i);
    var m := sent[i];
    OfBatchIsCached(c, sent, p, i);
    AfterReplyAt(d, sent, p.evicted, false, m);
    var states :| Trace(mac, states, events) && states[0] == s.(cache := p.cache) && states[|events|] == t;
    ChecksKeepTags(mac, states, events);
    assert m in sent;
  }

  /** It does not come to that when every block sent is one that the checks of the request need: the
      gatekeeper has halted then, and there is no reply to handle. */
  lemma NeededIsNotLost(mac: Mac, s: Session, d: Driver, sent: seq<nat>, events: seq<Event>, markFirst: bool,
                        t: Session, e: Driver)
    requires Within(mac, s, d) && SentWell(d, sent) && WriteStep(mac, s, d, sent, events, markFirst, t, e)
    requires forall m :: m in sent ==> exists i :: 0 <= i < |events| && Needs(events[i], m)
    ensures NoneLost(s.cache, sent) && KeepingWrite(mac, s, d, sent, events, markFirst, t, e)
  {
    hide TakeBlocks, Fresh, Proper, SlotsKnown, PlaceholdersHarmless, CopiesOf, Step, Current, Turned, Needs;
    hide Lost, AfterReply, WithinAt, Sendable;
    SentWellInBounds(d, sent);
    SentWellIs(mac, s, d, sent);
    FreshTags(mac, s);
    var c, blocks := s.cache, CopiesOf(d, sent);
    var p := TakeBlocks(mac, s.counters, c, blocks);
    BatchTurns(mac, s.counters, c, blocks, sent);
    var states :| Trace(mac, states, events) && states[0] == s.(cache := p.cache) && states[|events|] == t;
    forall i: nat | i < |sent|
      ensures !Lost(c, sent, i)
    {
      OfBatchIsCached(c, sent, p, i);
      assert sent[i] in sent;
      var k: nat :| k < |events| && Needs(events[k], sent[i]);
      if sent[i] !in p.cache.tags { PushedOutHalts(mac, states, events, k, sent[i]); }
    }
  }
}
