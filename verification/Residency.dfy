/** Which blocks a request finds in the cache.  The driver sends the blocks it needs and believes
    absent; what it sends may push out what it needs and did not send. */
module Residency {
  import opened Replay
  import opened LogUpdates
  import opened Freshness
  import opened Coherence
  import opened Collections

  /** The needed blocks that the driver believes absent, in order. */
  ghost function Missing(d: Driver, needed: seq<nat>): (sent: seq<nat>)
    requires Held(d) && forall i :: 0 <= i < |needed| ==> needed[i] < MD_BLOCKS
    ensures forall i :: 0 <= i < |sent| ==> sent[i] < MD_BLOCKS
  {
    if needed == [] then []
    else
      var n := |needed| - 1;
      Missing(d, needed[..n]) + if d.member[needed[n]] then [] else [needed[n]]
  }

  lemma {:induction false} MissingIs(d: Driver, needed: seq<nat>)
    requires Held(d) && (forall i :: 0 <= i < |needed| ==> needed[i] < MD_BLOCKS) && Distinct(needed)
    ensures forall m :: m in Missing(d, needed) <==> m in needed && !d.member[m]
    ensures Distinct(Missing(d, needed)) && |Missing(d, needed)| <= |needed|
    decreases |needed|
  {
    if needed != [] {
      var n := |needed| - 1;
      MissingIs(d, needed[..n]);
      assert needed == needed[..n] + [needed[n]];
    }
  }

  /** A request of five metadata blocks at most, none of them the placeholder's. */
  ghost predicate Request(needed: seq<nat>) {
    |needed| <= 5 && Distinct(needed) && forall i :: 0 <= i < |needed| ==> needed[i] < PLACEHOLDER
  }

  lemma MissingIsSendable(d: Driver, needed: seq<nat>)
    requires Held(d) && Request(needed)
    ensures Sendable(d, Missing(d, needed)) && PLACEHOLDER !in Missing(d, needed)
  {
    hide Missing;
    MissingIs(d, needed);
    var sent := Missing(d, needed);
    forall i | 0 <= i < |sent|
      ensures sent[i] < PLACEHOLDER && !d.member[sent[i]]
    {
      assert sent[i] in sent;
    }
  }

  /** A coherent driver's request finds every block it needs in the cache if and only if no slot that
      holds one of them is among the next n, where n blocks are missing and therefore sent. */
  lemma NeededStayIff(mac: Mac, s: Session, d: Driver, needed: seq<nat>)
    requires Coherent(mac, s, d) && Request(needed)
    ensures Shaped(s.cache) && |s.counters| == MD_BLOCKS && Held(d)
    ensures
      var sent := Missing(d, needed);
      var tags := TakeBlocks(mac, s.counters, s.cache, CopiesOf(d, sent)).cache.tags;
      (forall md :: md in needed ==> md in tags)
      <==> forall j: nat :: j < 5 && Replaced(s.cache.evict, |sent|, j) ==> s.cache.tags[j] !in needed
  {
    hide TakeBlocks, Replaced, Missing, Fresh, Proper, SlotsKnown, PlaceholdersHarmless, Current, Sendable;
    ShapeOf(mac, s);
    var sent := Missing(d, needed);
    MissingIs(d, needed);
    MissingIsSendable(d, needed);
    var c, tags := s.cache, TakeBlocks(mac, s.counters, s.cache, CopiesOf(d, sent)).cache.tags;
    forall md | md in needed && md !in c.tags
      ensures md in tags
    {
      assert SyncedAt(mac, s, d, md);
      SentArrives(mac, s, d, sent, md);
    }
    forall j: nat | j < 5 && c.tags[j] in needed
      ensures c.tags[j] in tags <==> !Replaced(c.evict, |sent|, j)
    {
      CachedStaysIff(mac, s, d, sent, j);
    }
    if forall j: nat :: j < 5 && Replaced(c.evict, |sent|, j) ==> c.tags[j] !in needed {
      forall md | md in needed
        ensures md in tags
      {
        if md in c.tags { var j: nat :| j < 5 && c.tags[j] == md; }
      }
    }
  }

  lemma SentArrives(mac: Mac, s: Session, d: Driver, sent: seq<nat>, md: nat)
    requires Coherent(mac, s, d) && Sendable(d, sent) && PLACEHOLDER !in sent && md in sent
    ensures Shaped(s.cache) && |s.counters| == MD_BLOCKS
    ensures md in TakeBlocks(mac, s.counters, s.cache, CopiesOf(d, sent)).cache.tags
  {
    hide TakeBlocks, Fresh, SyncedAt, Proper, SlotsKnown, PlaceholdersHarmless, MdOf, At;
    ShapeOf(mac, s);
    NeverRejected(mac, s, d, sent);
    SentBlocks(mac, s, d, sent);
    var i :| 0 <= i < |sent| && sent[i] == md;
    BatchArrives(mac, s.counters, s.cache, CopiesOf(d, sent), i);
  }

  /** The event tests or executes something of the metadata block. */
  ghost predicate Needs(e: Event, md: nat) {
    match e
    case Tested(pba, _, _) => pba / 512 == md
    case Logged(tx) => md in Mds(tx.pbas)
    case _ => false
  }

  lemma {:induction false} ChecksKeepTags(mac: Mac, states: seq<Session>, events: seq<Event>)
    requires Trace(mac, states, events) && Checks(events)
    ensures states[|events|].cache.tags == states[0].cache.tags
    decreases |events|
  {
    hide LogApplied, Mds, FindTag, TestSays;
    if events != [] {
      var n := |events| - 1;
      TraceBefore(mac, states, events, n);
      ChecksKeepTags(mac, states[..n + 1], events[..n]);
      assert Step(mac, states[n], events[n], states[n + 1]);
    }
  }

  /** No check of the rest of a request can need a block that its batch has pushed out: there is no
      step, the gatekeeper halts. */
  lemma PushedOutHalts(mac: Mac, states: seq<Session>, events: seq<Event>, i: nat, md: nat)
    requires Trace(mac, states, events) && Checks(events) && i < |events| && md !in states[0].cache.tags
    ensures !Needs(events[i], md)
  {
    hide TestSays, LogStep;
    TraceBefore(mac, states, events, i);
    ChecksKeepTags(mac, states[..i + 1], events[..i]);
    assert Step(mac, states[i], events[i], states[i + 1]);
    StepNeedsCached(mac, states[i], events[i], states[i + 1], md);
  }

  /** So a write whose checks need these blocks is served only if none of them sits in the next n
      slots: otherwise the gatekeeper has halted on the way. */
  lemma ServedOnlyIfNeededStay(mac: Mac, s: Session, d: Driver, needed: seq<nat>, events: seq<Event>, markFirst: bool,
                               t: Session, e: Driver)
    requires Coherent(mac, s, d) && Request(needed) && Held(d)
    requires forall md :: md in needed ==> exists i :: 0 <= i < |events| && Needs(events[i], md)
    requires WriteStep(mac, s, d, Missing(d, needed), events, markFirst, t, e)
    ensures forall j: nat :: j < 5 && Replaced(s.cache.evict, |Missing(d, needed)|, j) ==> s.cache.tags[j] !in needed
  {
    hide TakeBlocks, Replaced, Missing, Coherent, AfterReply, Sendable, Checks, Needs, Step;
    NeededStayIff(mac, s, d, needed);
    var p := TakeBlocks(mac, s.counters, s.cache, CopiesOf(d, Missing(d, needed)));
    var states :| Trace(mac, states, events) && states[0] == s.(cache := p.cache) && states[|events|] == t;
    forall md | md in needed
      ensures md in p.cache.tags
    {
      var i: nat :| i < |events| && Needs(events[i], md);
      if md !in p.cache.tags { PushedOutHalts(mac, states, events, i, md); }
    }
  }

  /** A denied write leaves the driver as it was, so its picture stays exact if and only if it had
      sent nothing. */
  lemma DeniedIsCoherentIff(mac: Mac, s: Session, d: Driver, sent: seq<nat>, events: seq<Event>, t: Session)
    requires Coherent(mac, s, d) && Sendable(d, sent) && PLACEHOLDER !in sent
    requires Shaped(s.cache) && |s.counters| == MD_BLOCKS
    requires Checks(events)
    requires Steps(mac, s.(cache := TakeBlocks(mac, s.counters, s.cache, CopiesOf(d, sent)).cache), events, t)
    ensures Coherent(mac, t, d) <==> sent == []
  {
    hide Fresh, Proper, SlotsKnown, PlaceholdersHarmless, Current, Step;
    var c := TakeBlocks(mac, s.counters, s.cache, CopiesOf(d, sent)).cache;
    var states :| Trace(mac, states, events) && states[0] == s.(cache := c) && states[|events|] == t;
    ChecksKeepTags(mac, states, events);
    if sent == [] {
      assert s.(cache := c) == s;
      ChecksKeepCoherent(mac, states, d, events);
    } else {
      assert sent[0] in sent;
      SentArrives(mac, s, d, sent, sent[0]);
      assert !SyncedAt(mac, t, d, sent[0]);
    }
  }
}
