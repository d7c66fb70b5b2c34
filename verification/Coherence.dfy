/** The driver's picture of the gatekeeper's cache: membership bits and its own copies of the
    metadata blocks. */
module Coherence {
  import opened Bytes
  import opened Replay
  import opened LogUpdates
  import opened Freshness

  /** md_cache_membership and md_cache */
  datatype Driver = Driver(member: seq<bool>, copies: seq<Slot>)

  /** hash_is_all_ff */
  ghost predicate AllOnes(digest: seq<byte>) { forall k :: 0 <= k < |digest| ==> digest[k] == 255 }

  ghost predicate NeverAllOnes(mac: Mac) { forall x: seq<byte> :: !AllOnes(mac(x)) }

  ghost predicate Held(d: Driver) { |d.member| == |d.copies| == MD_BLOCKS }

  /** One block that comes back: placeholders and impossible indices are ignored. */
  ghost function TakeBack(d: Driver, b: Slot): (r: Driver)
    requires Held(d)
    ensures Held(r)
  {
    if AllOnes(b[HEAD_BYTES..]) || MdOf(b) >= MD_BLOCKS then d
    else Driver(d.member[MdOf(b) := false], d.copies[MdOf(b) := b])
  }

  ghost function TakeBackAll(d: Driver, evicted: seq<Slot>): (r: Driver)
    requires Held(d)
    ensures Held(r)
  {
    if evicted == [] then d
    else TakeBack(TakeBackAll(d, evicted[..|evicted| - 1]), evicted[|evicted| - 1])
  }

  ghost function MarkSent(d: Driver, sent: seq<nat>): (r: Driver)
    requires Held(d) && forall i :: 0 <= i < |sent| ==> sent[i] < MD_BLOCKS
    ensures Held(r) && r.copies == d.copies
  {
    d.(member := seq(MD_BLOCKS, m requires 0 <= m < MD_BLOCKS => d.member[m] || m in sent))
  }

  /** The driver sends blocks it believes absent, each once, at most five. */
  ghost predicate Sendable(d: Driver, sent: seq<nat>)
    requires Held(d)
  {
    && |sent| <= 5 && (forall i :: 0 <= i < |sent| ==> sent[i] < MD_BLOCKS && !d.member[sent[i]])
    && (forall i, j :: 0 <= i < j < |sent| ==> sent[i] != sent[j])
  }

  ghost function CopiesOf(d: Driver, sent: seq<nat>): (blocks: seq<Slot>)
    requires Held(d) && forall i :: 0 <= i < |sent| ==> sent[i] < MD_BLOCKS
    ensures |blocks| == |sent|
  {
    seq(|sent|, i requires 0 <= i < |sent| => d.copies[sent[i]])
  }

  /** For every index but the placeholder's, the membership bit says whether the block is in the
      gatekeeper's cache, and the copy of an absent one is the last block hashed. */
  ghost predicate SyncedAt(mac: Mac, s: Session, d: Driver, m: nat)
    requires Held(d) && m < MD_BLOCKS
  {
    (d.member[m] <==> m in s.cache.tags) && (!d.member[m] ==> Current(mac, s, d.copies[m], m))
  }

  ghost predicate Synced(mac: Mac, s: Session, d: Driver) {
    && Held(d)
    && forall m: nat :: m < PLACEHOLDER ==> SyncedAt(mac, s, d, m)
  }

  ghost predicate Known(mac: Mac, s: Session, b: Slot) { HashHolds(mac, b) ==> b[..HEAD_BYTES] in s.issued }

  /** The slots carry no digest that was not issued. */
  ghost predicate SlotsKnown(mac: Mac, s: Session) {
    forall i :: 0 <= i < |s.cache.slots| ==> Known(mac, s, s.cache.slots[i])
  }

  /** What sits under the placeholder tag is an empty slot or a block of that index. */
  ghost predicate PlaceholdersHarmless(c: CacheState)
    requires Shaped(c)
  {
    forall i :: 0 <= i < 5 && c.tags[i] == PLACEHOLDER ==>
      AllOnes(c.slots[i][HEAD_BYTES..]) || MdOf(c.slots[i]) == PLACEHOLDER
  }

  ghost predicate Coherent(mac: Mac, s: Session, d: Driver) {
    && Fresh(mac, s) && Synced(mac, s, d) && Proper(mac, s, d) && SlotsKnown(mac, s) && PlaceholdersHarmless(s.cache)
  }

  // ---- What a batch of new blocks does to the cache ----

  /** Insertion point t steps on. */
  function At(e: nat, t: nat): (i: nat)
    ensures i < 5
  {
    (e + t) % 5
  }

  lemma AtDistinct(e: nat, t: nat, u: nat)
    requires t < u < t + 5
    ensures At(e, t) != At(e, u)
  {
  }

  /** The blocks pushed out are the old contents of the next slots. */
  ghost predicate PushedOut(c: CacheState, evicted: seq<Slot>)
    requires Shaped(c)
  {
    forall t: nat :: t < |evicted| ==> evicted[t] == c.slots[At(c.evict, t)]
  }

  /** The slots that n insertions fill carry tags from the batch. */
  ghost predicate Filled(e: nat, n: nat, blocks: seq<Slot>, tags: seq<nat>)
    requires |tags| == 5
  {
    forall t: nat :: t < n ==> exists i :: 0 <= i < |blocks| && MdOf(blocks[i]) == tags[At(e, t)]
  }

  /** n insertions fill slot j. */
  ghost predicate Replaced(e: nat, n: nat, j: nat) { exists t: nat :: t < n && At(e, t) == j }

  ghost predicate OthersStay(c: CacheState, c': CacheState, n: nat)
    requires Shaped(c) && |c'.tags| == |c'.slots| == 5
  {
    forall j: nat :: j < 5 && !Replaced(c.evict, n, j) ==> c'.tags[j] == c.tags[j] && c'.slots[j] == c.slots[j]
  }

  ghost predicate BatchShape(c: CacheState, blocks: seq<Slot>, p: Progress) {
    && Shaped(c) && |p.cache.tags| == |p.cache.slots| == 5 && |p.evicted| <= |blocks| <= 5
    && p.cache.evict == At(c.evict, |p.evicted|)
    && PushedOut(c, p.evicted) && Filled(c.evict, |p.evicted|, blocks, p.cache.tags)
    && OthersStay(c, p.cache, |p.evicted|)
  }

  lemma {:induction false} BatchHasShape(mac: Mac, counters: seq<u32>, c: CacheState, blocks: seq<Slot>)
    requires Shaped(c) && |counters| == MD_BLOCKS && |blocks| <= 5
    ensures BatchShape(c, blocks, TakeBlocks(mac, counters, c, blocks))
    decreases |blocks|
  {
    hide MdOf, CounterOf, HashHolds, TakeBlock, OthersStay, PushedOut, Filled;
    if blocks != [] {
      var most, b := blocks[..|blocks| - 1], blocks[|blocks| - 1];
      BatchHasShape(mac, counters, c, most);
      ShapeGrows(mac, counters, c, most, b, TakeBlocks(mac, counters, c, most));
      assert blocks == most + [b];
    } else {
      EmptyShape(c);
    }
  }

  lemma EmptyShape(c: CacheState)
    requires Shaped(c)
    ensures BatchShape(c, [], Progress(c, [], true))
  {
  }

  lemma AtNext(e: nat, n: nat)
    ensures At(e, n + 1) == (At(e, n) + 1) % 5
    ensures forall j: nat :: Replaced(e, n + 1, j) <==> Replaced(e, n, j) || j == At(e, n)
  {
    hide At;
    assert At(e, n + 1) == (At(e, n) + 1) % 5 by { AtIsMod(e, n); }
    forall j: nat | Replaced(e, n, j)
      ensures Replaced(e, n + 1, j)
    {
      var t: nat :| t < n && At(e, t) == j;
    }
    assert At(e, n) == At(e, n) && n < n + 1;
  }

  lemma AtIsMod(e: nat, n: nat)
    ensures At(e, n + 1) == (At(e, n) + 1) % 5
  {
  }

  lemma FilledMore(e: nat, n: nat, blocks: seq<Slot>, tags: seq<nat>, b: Slot)
    requires |tags| == 5 && Filled(e, n, blocks, tags)
    ensures Filled(e, n, blocks + [b], tags)
    ensures n < 5 ==> Filled(e, n + 1, blocks + [b], tags[At(e, n) := MdOf(b)])
  {
    hide MdOf, At;
    var more := blocks + [b];
    assert more[|blocks|] == b;
    assert forall i :: 0 <= i < |blocks| ==> more[i] == blocks[i];
    forall t: nat | t < n
      ensures exists i :: 0 <= i < |more| && MdOf(more[i]) == tags[At(e, t)]
    {
      var i :| 0 <= i < |blocks| && MdOf(blocks[i]) == tags[At(e, t)];
      assert more[i] == blocks[i];
    }
    if n < 5 {
      forall t: nat | t < n + 1
        ensures exists i :: 0 <= i < |more| && MdOf(more[i]) == tags[At(e, n) := MdOf(b)][At(e, t)]
      {
        if t < n {
          AtDistinct(e, t, n);
          var i :| 0 <= i < |more| && MdOf(more[i]) == tags[At(e, t)];
        } else {
          assert MdOf(more[|blocks|]) == tags[At(e, n) := MdOf(b)][At(e, n)];
        }
      }
    }
  }

  lemma NotReplacedYet(e: nat, n: nat)
    requires n < 5
    ensures !Replaced(e, n, At(e, n))
  {
    hide At;
    if Replaced(e, n, At(e, n)) {
      var t: nat :| t < n && At(e, t) == At(e, n);
      AtDistinct(e, t, n);
    }
  }

  lemma ShapeGrows(mac: Mac, counters: seq<u32>, c: CacheState, most: seq<Slot>, b: Slot, p: Progress)
    requires BatchShape(c, most, p) && |counters| == MD_BLOCKS && |most| < 5
    ensures p.cache.evict < 5 && BatchShape(c, most + [b], TakeBlock(mac, counters, p, b))
  {
    hide MdOf, CounterOf, HashHolds, At, Replaced, Filled;
    var r, n := TakeBlock(mac, counters, p, b), |p.evicted|;
    FilledMore(c.evict, n, most, p.cache.tags, b);
    AtNext(c.evict, n);
    NotReplacedYet(c.evict, n);
  }

  // ---- The batch a coherent driver sends ----

  /** The blocks are for different indices, none of them cached. */
  ghost predicate NewBlocks(c: CacheState, blocks: seq<Slot>) {
    && (forall i :: 0 <= i < |blocks| ==> MdOf(blocks[i]) == PLACEHOLDER || MdOf(blocks[i]) !in c.tags)
    && (forall i, j :: 0 <= i < j < |blocks| ==> MdOf(blocks[i]) != MdOf(blocks[j]))
  }

  ghost predicate Arrived(e: nat, n: nat, tags: seq<nat>, md: nat)
    requires |tags| == 5
  {
    exists t: nat :: t < n && tags[At(e, t)] == md
  }

  /** A tag after the batch was there before or came with it. */
  lemma TagsAfter(c: CacheState, blocks: seq<Slot>, p: Progress, j: nat)
    requires BatchShape(c, blocks, p) && j < 5
    ensures
      || (!Replaced(c.evict, |p.evicted|, j) && p.cache.tags[j] == c.tags[j])
      || exists i :: 0 <= i < |blocks| && MdOf(blocks[i]) == p.cache.tags[j]
  {
    hide MdOf, At;
  }

  /** Every block of an accepted batch stays in the cache to its end. */
  lemma {:induction false} BatchArrives(mac: Mac, counters: seq<u32>, c: CacheState, blocks: seq<Slot>, k: nat)
    requires Shaped(c) && |counters| == MD_BLOCKS && |blocks| <= 5 && NewBlocks(c, blocks)
    requires TakeBlocks(mac, counters, c, blocks).ok && k < |blocks| && MdOf(blocks[k]) != PLACEHOLDER
    ensures
      var p := TakeBlocks(mac, counters, c, blocks);
      Arrived(c.evict, |p.evicted|, p.cache.tags, MdOf(blocks[k]))
    decreases |blocks|
  {
    hide MdOf, At, TakeBlock, CounterOf, HashHolds;
    var most, b := blocks[..|blocks| - 1], blocks[|blocks| - 1];
    var p := TakeBlocks(mac, counters, c, most);
    BatchHasShape(mac, counters, c, most);
    OkBefore(mac, counters, p, b);
    if k < |most| {
      BatchArrives(mac, counters, c, most, k);
      StillThere(mac, counters, c, most, b, p, MdOf(blocks[k]));
    } else {
      NotYetThere(c, blocks, p);
      JustArrived(mac, counters, c, most, b, p);
    }
  }

  lemma OkBefore(mac: Mac, counters: seq<u32>, p: Progress, b: Slot)
    requires |p.cache.tags| == |p.cache.slots| == 5 && p.cache.evict < 5 && |counters| == MD_BLOCKS
    requires TakeBlock(mac, counters, p, b).ok
    ensures p.ok
  {
  }

  lemma StillThere(mac: Mac, counters: seq<u32>, c: CacheState, most: seq<Slot>, b: Slot, p: Progress, md: nat)
    requires BatchShape(c, most, p) && |counters| == MD_BLOCKS && |most| < 5
    requires Arrived(c.evict, |p.evicted|, p.cache.tags, md)
    ensures p.cache.evict < 5
    ensures var r := TakeBlock(mac, counters, p, b); Arrived(c.evict, |r.evicted|, r.cache.tags, md)
  {
    hide MdOf, At, CounterOf, HashHolds;
    var n := |p.evicted|;
    var t: nat :| t < n && p.cache.tags[At(c.evict, t)] == md;
    AtDistinct(c.evict, t, n);
    var r := TakeBlock(mac, counters, p, b);
    assert r.cache.tags[At(c.evict, t)] == md;
  }

  lemma JustArrived(mac: Mac, counters: seq<u32>, c: CacheState, most: seq<Slot>, b: Slot, p: Progress)
    requires BatchShape(c, most, p) && |counters| == MD_BLOCKS && p.ok && MdOf(b) !in p.cache.tags
    ensures p.cache.evict < 5
    ensures
      var r := TakeBlock(mac, counters, p, b);
      r.ok ==> Arrived(c.evict, |r.evicted|, r.cache.tags, MdOf(b))
  {
    hide MdOf, At, CounterOf, HashHolds;
    var r := TakeBlock(mac, counters, p, b);
    if r.ok { assert r.cache.tags[At(c.evict, |p.evicted|)] == MdOf(b); }
  }

  lemma NotYetThere(c: CacheState, blocks: seq<Slot>, p: Progress)
    requires |blocks| > 0 && BatchShape(c, blocks[..|blocks| - 1], p) && NewBlocks(c, blocks)
    requires MdOf(blocks[|blocks| - 1]) != PLACEHOLDER
    ensures MdOf(blocks[|blocks| - 1]) !in p.cache.tags
  {
    hide MdOf, At;
    var most, md := blocks[..|blocks| - 1], MdOf(blocks[|blocks| - 1]);
    forall j: nat | j < 5
      ensures p.cache.tags[j] != md
    {
      TagsAfter(c, most, p, j);
      if p.cache.tags[j] != c.tags[j] {
        var i :| 0 <= i < |most| && MdOf(most[i]) == p.cache.tags[j];
        assert most[i] == blocks[i];
      }
    }
  }

  /** A batch of current blocks is never rejected. */
  lemma {:induction false} CurrentIsAccepted(mac: Mac, s: Session, blocks: seq<Slot>)
    requires Shaped(s.cache) && |s.counters| == MD_BLOCKS
    requires forall i :: 0 <= i < |blocks| ==> Current(mac, s, blocks[i], MdOf(blocks[i]))
    ensures TakeBlocks(mac, s.counters, s.cache, blocks).ok
    decreases |blocks|
  {
    hide MdOf, CounterOf, HashHolds;
    if blocks != [] {
      var most := blocks[..|blocks| - 1];
      assert forall i :: 0 <= i < |most| ==> most[i] == blocks[i];
      CurrentIsAccepted(mac, s, most);
    }
  }

  lemma SentBlocks(mac: Mac, s: Session, d: Driver, sent: seq<nat>)
    requires Coherent(mac, s, d) && Sendable(d, sent)
    ensures
      var blocks := CopiesOf(d, sent);
      && NewBlocks(s.cache, blocks) && Issued(mac, s, blocks)
      && forall i :: 0 <= i < |sent| ==> MdOf(blocks[i]) == sent[i]
  {
    hide MdOf, HashHolds, Current, Fresh, PlaceholdersHarmless;
    forall i | 0 <= i < |sent|
      ensures MdOf(d.copies[sent[i]]) == sent[i] && (sent[i] == PLACEHOLDER || sent[i] !in s.cache.tags)
    {
      if sent[i] < PLACEHOLDER { assert SyncedAt(mac, s, d, sent[i]); }
    }
  }

  /** The gatekeeper never rejects what a coherent driver sends, the placeholder's index apart. */
  lemma NeverRejected(mac: Mac, s: Session, d: Driver, sent: seq<nat>)
    requires Coherent(mac, s, d) && Sendable(d, sent) && PLACEHOLDER !in sent
    ensures Shaped(s.cache) && |s.counters| == MD_BLOCKS
    ensures TakeBlocks(mac, s.counters, s.cache, CopiesOf(d, sent)).ok
  {
    hide MdOf, CounterOf, HashHolds, TakeBlocks, Current;
    SentBlocks(mac, s, d, sent);
    var blocks := CopiesOf(d, sent);
    forall i | 0 <= i < |blocks|
      ensures Current(mac, s, blocks[i], MdOf(blocks[i]))
    {
      assert sent[i] in sent;
      assert SyncedAt(mac, s, d, sent[i]);
    }
    CurrentIsAccepted(mac, s, blocks);
  }

  /** With the placeholder's index apart, every block of an accepted batch takes a slot. */
  lemma {:induction false} AllInserted(mac: Mac, counters: seq<u32>, c: CacheState, blocks: seq<Slot>)
    requires Shaped(c) && |counters| == MD_BLOCKS && |blocks| <= 5 && NewBlocks(c, blocks)
    requires forall i :: 0 <= i < |blocks| ==> MdOf(blocks[i]) != PLACEHOLDER
    requires TakeBlocks(mac, counters, c, blocks).ok
    ensures |TakeBlocks(mac, counters, c, blocks).evicted| == |blocks|
    decreases |blocks|
  {
    hide MdOf, At, TakeBlock, CounterOf, HashHolds;
    if blocks != [] {
      var most, b := blocks[..|blocks| - 1], blocks[|blocks| - 1];
      var p := TakeBlocks(mac, counters, c, most);
      BatchHasShape(mac, counters, c, most);
      OkBefore(mac, counters, p, b);
      assert forall i :: 0 <= i < |most| ==> most[i] == blocks[i];
      AllInserted(mac, counters, c, most);
      NotYetThere(c, blocks, p);
      NewIsInserted(mac, counters, p, b);
    }
  }

  lemma NewIsInserted(mac: Mac, counters: seq<u32>, p: Progress, b: Slot)
    requires |p.cache.tags| == |p.cache.slots| == 5 && p.cache.evict < 5 && |counters| == MD_BLOCKS
    requires p.ok && MdOf(b) !in p.cache.tags && TakeBlock(mac, counters, p, b).ok
    ensures |TakeBlock(mac, counters, p, b).evicted| == |p.evicted| + 1
  {
  }

  lemma AtReaches(e: nat, j: nat) returns (t: nat)
    requires e < 5 && j < 5
    ensures t < 5 && At(e, t) == j
  {
    t := if j >= e then j - e else j + 5 - e;
  }

  /** A batch of five new blocks fills the cache. */
  lemma FiveFill(mac: Mac, counters: seq<u32>, c: CacheState, blocks: seq<Slot>, j: nat)
    requires Shaped(c) && |counters| == MD_BLOCKS && |blocks| == 5 && NewBlocks(c, blocks) && j < 5
    requires forall i :: 0 <= i < 5 ==> MdOf(blocks[i]) != PLACEHOLDER
    requires TakeBlocks(mac, counters, c, blocks).ok
    ensures exists i :: 0 <= i < 5 && MdOf(blocks[i]) == TakeBlocks(mac, counters, c, blocks).cache.tags[j]
  {
    hide MdOf, At, TakeBlocks;
    AllInserted(mac, counters, c, blocks);
    BatchHasShape(mac, counters, c, blocks);
    var t := AtReaches(c.evict, j);
    var i :| 0 <= i < 5 && MdOf(blocks[i]) == TakeBlocks(mac, counters, c, blocks).cache.tags[At(c.evict, t)];
  }

  /** The driver does not send what is cached, but sending other blocks may push it out: a block
      cached in slot j stays through a batch of n new ones exactly when j is not among the next n
      slots.  When it is pushed out, a log block or a range of the same request that needs it
      halts the gatekeeper. */
  lemma CachedStaysIff(mac: Mac, s: Session, d: Driver, sent: seq<nat>, j: nat)
    requires Coherent(mac, s, d) && Sendable(d, sent) && PLACEHOLDER !in sent
    requires j < 5 && j < |s.cache.tags| && s.cache.tags[j] < PLACEHOLDER
    ensures Shaped(s.cache) && |s.counters| == MD_BLOCKS
    ensures
      var p := TakeBlocks(mac, s.counters, s.cache, CopiesOf(d, sent));
      s.cache.tags[j] in p.cache.tags <==> !Replaced(s.cache.evict, |sent|, j)
  {
    hide MdOf, CounterOf, HashHolds, TakeBlocks, Current, At, Replaced, Proper, SlotsKnown, PlaceholdersHarmless;
    NeverRejected(mac, s, d, sent);
    SentBlocks(mac, s, d, sent);
    var c, blocks, m := s.cache, CopiesOf(d, sent), s.cache.tags[j];
    var p := TakeBlocks(mac, s.counters, c, blocks);
    BatchHasShape(mac, s.counters, c, blocks);
    forall i | 0 <= i < |blocks|
      ensures MdOf(blocks[i]) != PLACEHOLDER
    {
      assert sent[i] in sent;
    }
    AllInserted(mac, s.counters, c, blocks);
    if Replaced(c.evict, |sent|, j) {
      forall k: nat | k < 5
        ensures p.cache.tags[k] != m
      {
        TagsAfter(c, blocks, p, k);
        if !(exists i :: 0 <= i < |blocks| && MdOf(blocks[i]) == p.cache.tags[k]) {
          SameTagSameSlot(c.tags, j, k);
        }
      }
    }
  }

  // ---- What the driver takes back ----

  ghost predicate Real(b: Slot) { !AllOnes(b[HEAD_BYTES..]) && MdOf(b) < MD_BLOCKS }

  /** The driver's view of one index after taking back evicted blocks. */
  lemma {:induction false} TakeBackAllAt(d: Driver, evicted: seq<Slot>, m: nat)
    requires Held(d) && m < MD_BLOCKS
    ensures
      var r := TakeBackAll(d, evicted);
      if exists t :: 0 <= t < |evicted| && Real(evicted[t]) && MdOf(evicted[t]) == m then
        && !r.member[m]
        && exists t :: 0 <= t < |evicted| && Real(evicted[t]) && MdOf(evicted[t]) == m && r.copies[m] == evicted[t]
      else r.member[m] == d.member[m] && r.copies[m] == d.copies[m]
    decreases |evicted|
  {
    hide MdOf, AllOnes;
    if evicted != [] {
      var most, b := evicted[..|evicted| - 1], evicted[|evicted| - 1];
      TakeBackAllAt(d, most, m);
      assert forall t :: 0 <= t < |most| ==> most[t] == evicted[t];
      var r := TakeBackAll(d, evicted);
      assert r == TakeBack(TakeBackAll(d, most), b);
      if Real(b) && MdOf(b) == m {
        assert r.copies[m] == evicted[|evicted| - 1];
      } else if exists t :: 0 <= t < |most| && Real(most[t]) && MdOf(most[t]) == m {
        var t :| 0 <= t < |most| && Real(most[t]) && MdOf(most[t]) == m && TakeBackAll(d, most).copies[m] == most[t];
        assert r.copies[m] == evicted[t];
      }
    }
  }

  /** Each copy carries its own index, and no forged digest. */
  ghost predicate Proper(mac: Mac, s: Session, d: Driver)
    requires Held(d)
  {
    forall m :: 0 <= m < MD_BLOCKS ==> MdOf(d.copies[m]) == m && Known(mac, s, d.copies[m])
  }

  lemma TakeBackProper(mac: Mac, s: Session, d: Driver, b: Slot)
    requires Held(d) && Proper(mac, s, d) && Known(mac, s, b)
    ensures Proper(mac, s, TakeBack(d, b))
  {
    hide MdOf, AllOnes, Known;
  }

  lemma {:induction false} CopiesStayProper(mac: Mac, s: Session, d: Driver, evicted: seq<Slot>)
    requires Held(d) && Proper(mac, s, d) && forall t :: 0 <= t < |evicted| ==> Known(mac, s, evicted[t])
    ensures Proper(mac, s, TakeBackAll(d, evicted))
    decreases |evicted|
  {
    hide Proper, Known;
    if evicted != [] {
      var most := evicted[..|evicted| - 1];
      assert forall t :: 0 <= t < |most| ==> most[t] == evicted[t];
      CopiesStayProper(mac, s, d, most);
      TakeBackProper(mac, s, TakeBackAll(d, most), evicted[|evicted| - 1]);
    }
  }

  /** A real evicted block is current, and its index is neither cached any more nor just sent. */
  lemma EvictedIsGone(mac: Mac, s: Session, d: Driver, sent: seq<nat>, p: Progress, t: nat)
    requires Coherent(mac, s, d) && Sendable(d, sent) && BatchShape(s.cache, CopiesOf(d, sent), p)
    requires t < |p.evicted| && Real(p.evicted[t]) && MdOf(p.evicted[t]) < PLACEHOLDER
    ensures
      var m := MdOf(p.evicted[t]);
      Current(mac, s, p.evicted[t], m) && m !in sent && m !in p.cache.tags
  {
    hide MdOf, AllOnes, At, CounterOf, HashHolds, Known;
    var c, blocks, m := s.cache, CopiesOf(d, sent), MdOf(p.evicted[t]);
    var j := At(c.evict, t);
    assert p.evicted[t] == c.slots[j];
    assert c.tags[j] != PLACEHOLDER ==> Current(mac, s, c.slots[j], c.tags[j]);
    assert c.tags[j] == m;
    assert SyncedAt(mac, s, d, m);
    assert m !in sent;
    SentBlocks(mac, s, d, sent);
    forall k: nat | k < 5
      ensures p.cache.tags[k] != m
    {
      TagsAfter(c, blocks, p, k);
      assert Replaced(c.evict, |p.evicted|, j);
      if !(exists i :: 0 <= i < |blocks| && MdOf(blocks[i]) == p.cache.tags[k]) {
        SameTagSameSlot(c.tags, j, k);
      }
    }
  }

  lemma SameTagSameSlot(tags: seq<nat>, j: nat, k: nat)
    requires TagsDistinct(tags) && j < |tags| && k < |tags| && tags[j] != PLACEHOLDER
    ensures tags[j] == tags[k] ==> j == k
  {
  }

  /** A cached block that leaves the cache comes back to the driver. */
  lemma LeaverIsEvicted(mac: Mac, s: Session, blocks: seq<Slot>, p: Progress, m: nat)
    requires Fresh(mac, s) && NeverAllOnes(mac) && BatchShape(s.cache, blocks, p)
    requires m < PLACEHOLDER && m in s.cache.tags && m !in p.cache.tags
    ensures exists t :: 0 <= t < |p.evicted| && Real(p.evicted[t]) && MdOf(p.evicted[t]) == m
  {
    hide MdOf, AllOnes, At, CounterOf, HashHolds, Known;
    var c := s.cache;
    var j: nat :| j < 5 && c.tags[j] == m;
    assert Current(mac, s, c.slots[j], m);
    assert Replaced(c.evict, |p.evicted|, j);
    var t: nat :| t < |p.evicted| && At(c.evict, t) == j;
    assert p.evicted[t] == c.slots[j];
    CurrentIsReal(mac, s, c.slots[j], m);
  }

  lemma CurrentIsReal(mac: Mac, s: Session, b: Slot, m: nat)
    requires NeverAllOnes(mac) && m < MD_BLOCKS && Current(mac, s, b, m)
    ensures Real(b)
  {
    assert b[HEAD_BYTES..] == mac(b[..HEAD_BYTES]);
  }

  // ---- An accepted write ----

  /** The driver's two orders: device_write marks what it sent and then takes back, send_metadata
      and send_hd_metadata take back first. */
  ghost function AfterReply(d: Driver, sent: seq<nat>, evicted: seq<Slot>, markFirst: bool): (r: Driver)
    requires Held(d) && forall i :: 0 <= i < |sent| ==> sent[i] < MD_BLOCKS
  {
    if markFirst then TakeBackAll(MarkSent(d, sent), evicted) else MarkSent(TakeBackAll(d, evicted), sent)
  }

  lemma ReplyAt(d: Driver, sent: seq<nat>, evicted: seq<Slot>, markFirst: bool, m: nat)
    requires Held(d) && m < MD_BLOCKS && forall i :: 0 <= i < |sent| ==> sent[i] < MD_BLOCKS
    requires forall t :: 0 <= t < |evicted| && Real(evicted[t]) && MdOf(evicted[t]) == m ==> m !in sent
    ensures
      var r := AfterReply(d, sent, evicted, markFirst);
      && Held(r)
      && if exists t :: 0 <= t < |evicted| && Real(evicted[t]) && MdOf(evicted[t]) == m then
           && !r.member[m]
           && exists t :: 0 <= t < |evicted| && Real(evicted[t]) && MdOf(evicted[t]) == m && r.copies[m] == evicted[t]
         else r.member[m] == (d.member[m] || m in sent) && r.copies[m] == d.copies[m]
  {
    hide MdOf, Real, TakeBackAll;
    TakeBackAllAt(MarkSent(d, sent), evicted, m);
    TakeBackAllAt(d, evicted, m);
  }

  lemma BatchSyncsAt(mac: Mac, s: Session, d: Driver, sent: seq<nat>, markFirst: bool, m: nat)
    requires Coherent(mac, s, d) && NeverAllOnes(mac) && Sendable(d, sent) && m < PLACEHOLDER
    requires |s.counters| == MD_BLOCKS && Shaped(s.cache) && TakeBlocks(mac, s.counters, s.cache, CopiesOf(d, sent)).ok
    ensures
      var p := TakeBlocks(mac, s.counters, s.cache, CopiesOf(d, sent));
      var r := AfterReply(d, sent, p.evicted, markFirst);
      Held(r) && SyncedAt(mac, s.(cache := p.cache), r, m)
  {
    hide MdOf, Real, Current, TakeBlocks, AfterReply, Fresh, Proper, SlotsKnown, PlaceholdersHarmless, BatchShape;
    var blocks := CopiesOf(d, sent);
    var p := TakeBlocks(mac, s.counters, s.cache, blocks);
    BatchHasShape(mac, s.counters, s.cache, blocks);
    SentBlocks(mac, s, d, sent);
    assert SyncedAt(mac, s, d, m);
    forall t | 0 <= t < |p.evicted| && Real(p.evicted[t]) && MdOf(p.evicted[t]) == m
      ensures m !in sent && m !in p.cache.tags && Current(mac, s, p.evicted[t], m)
    {
      EvictedIsGone(mac, s, d, sent, p, t);
    }
    ReplyAt(d, sent, p.evicted, markFirst, m);
    if !(exists t :: 0 <= t < |p.evicted| && Real(p.evicted[t]) && MdOf(p.evicted[t]) == m) {
      ResidentAfter(mac, s, d, sent, p, m);
    }
    CurrentAnyCache(mac, s, p.cache, m);
  }

  lemma CurrentAnyCache(mac: Mac, s: Session, c: CacheState, m: nat)
    ensures forall b :: Current(mac, s.(cache := c), b, m) == Current(mac, s, b, m)
  {
  }

  /** Without a real eviction of m, it is cached after the batch if it was before or was sent. */
  lemma ResidentAfter(mac: Mac, s: Session, d: Driver, sent: seq<nat>, p: Progress, m: nat)
    requires Coherent(mac, s, d) && NeverAllOnes(mac) && Sendable(d, sent) && m < PLACEHOLDER
    requires Held(d) && |s.counters| == MD_BLOCKS && Shaped(s.cache)
    requires p == TakeBlocks(mac, s.counters, s.cache, CopiesOf(d, sent)) && p.ok
    requires !exists t :: 0 <= t < |p.evicted| && Real(p.evicted[t]) && MdOf(p.evicted[t]) == m
    ensures m in p.cache.tags <==> m in s.cache.tags || m in sent
  {
    hide MdOf, Real, Current, TakeBlocks, Synced, Proper, SlotsKnown, PlaceholdersHarmless, At, Replaced;
    var blocks := CopiesOf(d, sent);
    BatchHasShape(mac, s.counters, s.cache, blocks);
    SentBlocks(mac, s, d, sent);
    if m in s.cache.tags && m !in p.cache.tags { LeaverIsEvicted(mac, s, blocks, p, m); }
    if m in sent {
      var i :| 0 <= i < |sent| && sent[i] == m;
      BatchArrives(mac, s.counters, s.cache, blocks, i);
    }
    if m in p.cache.tags {
      var j: nat :| j < 5 && p.cache.tags[j] == m;
      TagsAfter(s.cache, blocks, p, j);
    }
  }

  lemma {:induction false} SlotsStayKnown(mac: Mac, s: Session, blocks: seq<Slot>)
    requires Shaped(s.cache) && |s.counters| == MD_BLOCKS && SlotsKnown(mac, s) && PlaceholdersHarmless(s.cache)
    requires Issued(mac, s, blocks)
    ensures
      var c := TakeBlocks(mac, s.counters, s.cache, blocks).cache;
      Shaped(c) && SlotsKnown(mac, s.(cache := c)) && PlaceholdersHarmless(c)
    decreases |blocks|
  {
    hide MdOf, CounterOf, HashHolds, AllOnes, TakeBlock;
    if blocks == [] {
      assert s.(cache := s.cache) == s;
    } else {
      var most, b := blocks[..|blocks| - 1], blocks[|blocks| - 1];
      assert forall i :: 0 <= i < |most| ==> most[i] == blocks[i];
      SlotsStayKnown(mac, s, most);
      SlotStaysKnown(mac, s, TakeBlocks(mac, s.counters, s.cache, most), b);
    }
  }

  lemma SlotStaysKnown(mac: Mac, s: Session, p: Progress, b: Slot)
    requires Shaped(p.cache) && |s.counters| == MD_BLOCKS && Known(mac, s, b)
    requires SlotsKnown(mac, s.(cache := p.cache)) && PlaceholdersHarmless(p.cache)
    ensures
      var c := TakeBlock(mac, s.counters, p, b).cache;
      Shaped(c) && SlotsKnown(mac, s.(cache := c)) && PlaceholdersHarmless(c)
  {
    hide MdOf, CounterOf, HashHolds, AllOnes;
    var c := TakeBlock(mac, s.counters, p, b).cache;
    forall i | 0 <= i < 5
      ensures Known(mac, s.(cache := c), c.slots[i])
    {
      assert Known(mac, s.(cache := p.cache), p.cache.slots[i]);
    }
  }

  /** Coherence survives an accepted batch, whichever order the driver uses for the reply. */
  lemma BatchKeepsCoherent(mac: Mac, s: Session, d: Driver, sent: seq<nat>, markFirst: bool)
    requires Coherent(mac, s, d) && NeverAllOnes(mac) && Sendable(d, sent)
    requires |s.counters| == MD_BLOCKS && Shaped(s.cache) && TakeBlocks(mac, s.counters, s.cache, CopiesOf(d, sent)).ok
    ensures
      var p := TakeBlocks(mac, s.counters, s.cache, CopiesOf(d, sent));
      Coherent(mac, s.(cache := p.cache), AfterReply(d, sent, p.evicted, markFirst))
  {
    hide MdOf, Real, Current, TakeBlocks, TakeBackAll, Fresh, BatchShape, Known, SyncedAt;
    var blocks := CopiesOf(d, sent);
    var p := TakeBlocks(mac, s.counters, s.cache, blocks);
    var r := AfterReply(d, sent, p.evicted, markFirst);
    SentBlocks(mac, s, d, sent);
    IssuedIsVouched(mac, s, blocks);
    BlocksKeepFresh(mac, s, blocks);
    SlotsStayKnown(mac, s, blocks);
    BatchHasShape(mac, s.counters, s.cache, blocks);
    EvictedKnown(mac, s, blocks, p);
    CopiesStayProper(mac, s, d, p.evicted);
    CopiesStayProper(mac, s, MarkSent(d, sent), p.evicted);
    KnownAnyCache(mac, s, p.cache, r);
    forall m: nat | m < PLACEHOLDER
      ensures SyncedAt(mac, s.(cache := p.cache), r, m)
    {
      BatchSyncsAt(mac, s, d, sent, markFirst, m);
    }
  }

  lemma EvictedKnown(mac: Mac, s: Session, blocks: seq<Slot>, p: Progress)
    requires BatchShape(s.cache, blocks, p) && SlotsKnown(mac, s)
    ensures forall t :: 0 <= t < |p.evicted| ==> Known(mac, s, p.evicted[t])
  {
    hide Known, At;
    forall t: nat | t < |p.evicted|
      ensures Known(mac, s, p.evicted[t])
    {
      assert p.evicted[t] == s.cache.slots[At(s.cache.evict, t)];
    }
  }

  lemma KnownAnyCache(mac: Mac, s: Session, c: CacheState, d: Driver)
    requires Held(d)
    ensures Proper(mac, s, d) ==> Proper(mac, s.(cache := c), d)
  {
    hide MdOf, HashHolds;
    if Proper(mac, s, d) {
      forall m | 0 <= m < MD_BLOCKS
        ensures MdOf(d.copies[m]) == m && Known(mac, s.(cache := c), d.copies[m])
      {
        assert Known(mac, s, d.copies[m]);
      }
    }
  }

  // ---- Log blocks and SYNC ----

  lemma SlotKnownAfterLog(mac: Mac, s: Session, tx: Transaction, t: Session, i: nat)
    requires LogStep(mac, s, tx, t) && SlotsKnown(mac, s) && PlaceholdersHarmless(s.cache) && i < 5
    ensures Known(mac, t, t.cache.slots[i])
    ensures t.cache.tags[i] == PLACEHOLDER ==>
      AllOnes(t.cache.slots[i][HEAD_BYTES..]) || MdOf(t.cache.slots[i]) == PLACEHOLDER
  {
    hide StepSlots, Seal, MdOf, CounterOf, HashHolds, Switches, Bump, AllOnes, BelowMax;
    var tags := s.cache.tags;
    if tags[i] in Mds(tx.pbas) && Found(tags, i) {
      PlaceholderSlot(mac, s, tx, t, tags[i]);
      assert tags[i] in tags;
    } else {
      OtherSlotsStay(tags, s.cache.slots, tx.pbas, tx.keep, tx.now, i);
      assert t.cache.slots[i] == s.cache.slots[i];
      assert Known(mac, s, s.cache.slots[i]);
    }
  }

  lemma SyncedAfterLog(mac: Mac, s: Session, d: Driver, tx: Transaction, t: Session, m: nat)
    requires Fresh(mac, s) && LogStep(mac, s, tx, t) && Held(d) && m < PLACEHOLDER && SyncedAt(mac, s, d, m)
    ensures SyncedAt(mac, t, d, m)
  {
    hide LogApplied, Mds, MdOf, CounterOf, HashHolds, FindTag, Bound;
    CountersAfterLog(mac, s, tx, t, m);
  }

  /** Coherence survives every log block that does not halt the gatekeeper. */
  lemma LogKeepsCoherent(mac: Mac, s: Session, d: Driver, tx: Transaction, t: Session)
    requires Coherent(mac, s, d) && LogStep(mac, s, tx, t)
    ensures Coherent(mac, t, d)
  {
    hide LogApplied, MdOf, HashHolds, AllOnes, Fresh, SyncedAt;
    LogKeepsFresh(mac, s, tx, t);
    forall m: nat | m < PLACEHOLDER
      ensures SyncedAt(mac, t, d, m)
    {
      SyncedAfterLog(mac, s, d, tx, t, m);
    }
    forall i | 0 <= i < 5
      ensures Known(mac, t, t.cache.slots[i])
      ensures t.cache.tags[i] == PLACEHOLDER ==>
        AllOnes(t.cache.slots[i][HEAD_BYTES..]) || MdOf(t.cache.slots[i]) == PLACEHOLDER
    {
      SlotKnownAfterLog(mac, s, tx, t, i);
    }
    forall m | 0 <= m < MD_BLOCKS
      ensures MdOf(d.copies[m]) == m && Known(mac, t, d.copies[m])
    {
      assert Known(mac, s, d.copies[m]);
    }
  }

  /** SYNC: the driver overlays its copies with the snapshot of the cache and leaves the
      membership bits alone. */
  ghost function Overlay(d: Driver, slots: seq<Slot>): (r: Driver)
    requires Held(d)
    ensures Held(r) && r.member == d.member
  {
    if slots == [] then d
    else
      var most, b := Overlay(d, slots[..|slots| - 1]), slots[|slots| - 1];
      if Real(b) then Driver(most.member, most.copies[MdOf(b) := b]) else most
  }

  lemma {:induction false} OverlayElsewhere(d: Driver, slots: seq<Slot>, m: nat)
    requires Held(d) && m < MD_BLOCKS && forall i :: 0 <= i < |slots| ==> !Real(slots[i]) || MdOf(slots[i]) != m
    ensures Overlay(d, slots).copies[m] == d.copies[m]
    decreases |slots|
  {
    hide MdOf, Real;
    if slots != [] {
      var most := slots[..|slots| - 1];
      assert forall i :: 0 <= i < |most| ==> most[i] == slots[i];
      assert slots[|slots| - 1] == slots[|slots| - 1];
      OverlayElsewhere(d, most, m);
    }
  }

  lemma {:induction false} OverlayProper(mac: Mac, s: Session, d: Driver, slots: seq<Slot>)
    requires Held(d) && Proper(mac, s, d) && forall t :: 0 <= t < |slots| ==> Known(mac, s, slots[t])
    ensures Proper(mac, s, Overlay(d, slots))
    decreases |slots|
  {
    hide MdOf, AllOnes, Known;
    if slots != [] {
      var most := slots[..|slots| - 1];
      assert forall t :: 0 <= t < |most| ==> most[t] == slots[t];
      OverlayProper(mac, s, d, most);
    }
  }

  lemma SyncKeepsCoherent(mac: Mac, s: Session, d: Driver)
    requires Coherent(mac, s, d)
    ensures Coherent(mac, s, Overlay(d, s.cache.slots))
  {
    hide MdOf, CounterOf, HashHolds, AllOnes, Known, Overlay, Proper;
    OverlayProper(mac, s, d, s.cache.slots);
    var r := Overlay(d, s.cache.slots);
    forall m: nat | m < PLACEHOLDER
      ensures SyncedAt(mac, s, r, m)
    {
      assert SyncedAt(mac, s, d, m);
      if !d.member[m] {
        forall i | 0 <= i < 5
          ensures !Real(s.cache.slots[i]) || MdOf(s.cache.slots[i]) != m
        {
          if s.cache.tags[i] != PLACEHOLDER { assert Current(mac, s, s.cache.slots[i], s.cache.tags[i]); }
        }
        OverlayElsewhere(d, s.cache.slots, m);
      }
    }
  }

  // ---- The start of a session, and runs ----

  /** build_cache on a fresh disk: the driver holds the blocks handle_init sent, all marked
      absent. */
  ghost predicate DriverStart(mac: Mac, d: Driver) {
    && Held(d)
    && forall m :: 0 <= m < MD_BLOCKS ==> !d.member[m] && d.copies[m] == InitBlock(mac, m, 0)
  }

  lemma InitBlockParts(mac: Mac, md: u32, counter: u32)
    ensures
      var b := InitBlock(mac, md, counter);
      && MdOf(b) == md && CounterOf(b) == counter && HashHolds(mac, b)
      && b[..4096] == InitContent() && b[..HEAD_BYTES] == Head(InitContent(), md, counter)
  {
    hide MdOf, CounterOf, HashHolds, InitContent, Head, Seal;
    var raw: Slot := InitContent() + seq(40, i => 0 as byte);
    InitBlockIs(mac, md, counter);
    SealParts(mac, raw, md, counter);
    HeadOfSealed(InitBlock(mac, md, counter));
    assert raw[..4096] == InitContent();
  }

  lemma StartIsCoherent(mac: Mac, s: Session, t: Session, d: Driver)
    requires NeverAllOnes(mac) && IsStart(s) && InitStep(s, t) && DriverStart(mac, d)
    ensures Coherent(mac, t, d)
  {
    hide MdOf, CounterOf, HashHolds, InitContent, Head, InitBlock;
    InitIsFresh(mac, s, t);
    forall i | 0 <= i < 5
      ensures Known(mac, t, t.cache.slots[i]) && AllOnes(t.cache.slots[i][HEAD_BYTES..])
    {
      EmptySlot(mac, t.cache.slots[i]);
    }
    forall m: nat | m < MD_BLOCKS
      ensures MdOf(d.copies[m]) == m && d.copies[m][..HEAD_BYTES] in t.issued
    {
      InitBlockParts(mac, m, 0);
      assert s.counters[m] == 0;
      assert Head(InitContent(), m, s.counters[m]) in t.issued;
    }
    forall m: nat | m < PLACEHOLDER
      ensures SyncedAt(mac, t, d, m)
    {
      InitBlockParts(mac, m, 0);
    }
  }

  lemma EmptySlot(mac: Mac, b: Slot)
    requires NeverAllOnes(mac) && forall k :: 0 <= k < SLOT_BYTES ==> b[k] == 255
    ensures !HashHolds(mac, b) && AllOnes(b[HEAD_BYTES..])
  {
    assert forall k :: 0 <= k < 32 ==> b[HEAD_BYTES..][k] == b[HEAD_BYTES + k];
  }

  /** The events lead from s to t. */
  ghost predicate Steps(mac: Mac, s: Session, events: seq<Event>, t: Session) {
    exists states :: Trace(mac, states, events) && states[0] == s && states[|events|] == t
  }

  /** An accepted write: the missing blocks are sent and let in, the ranges are tested and their
      log blocks executed, and the driver handles the reply. */
  ghost predicate WriteStep(mac: Mac, s: Session, d: Driver, sent: seq<nat>, events: seq<Event>, markFirst: bool,
                            t: Session, e: Driver) {
    && Held(d) && Sendable(d, sent) && Shaped(s.cache) && |s.counters| == MD_BLOCKS && Checks(events)
    && var p := TakeBlocks(mac, s.counters, s.cache, CopiesOf(d, sent));
    p.ok && Steps(mac, s.(cache := p.cache), events, t) && e == AfterReply(d, sent, p.evicted, markFirst)
  }

  ghost predicate PairStep(mac: Mac, s: Session, d: Driver, t: Session, e: Driver) {
    || (exists sent, events, markFirst :: WriteStep(mac, s, d, sent, events, markFirst, t, e))
    || (Held(d) && t == s && e == Overlay(d, s.cache.slots))
  }

  lemma {:induction false} ChecksKeepCoherent(mac: Mac, states: seq<Session>, d: Driver, events: seq<Event>)
    requires Trace(mac, states, events) && Checks(events) && Coherent(mac, states[0], d)
    ensures Coherent(mac, states[|events|], d)
    decreases |events|
  {
    hide Coherent, LogStep, TestSays;
    if events != [] {
      var n := |events| - 1;
      TraceBefore(mac, states, events, n);
      ChecksKeepCoherent(mac, states[..n + 1], d, events[..n]);
      assert Step(mac, states[n], events[n], states[n + 1]);
      if events[n].Logged? { LogKeepsCoherent(mac, states[n], d, events[n].tx, states[n + 1]); }
    }
  }

  /** A request the gatekeeper has served is a write step: its history has grown by the batch and
      the checks. */
  lemma ServedIsWriteStep(mac: Mac, states: seq<Session>, events: seq<Event>, d: Driver, sent: seq<nat>,
                          checks: seq<Event>, k: nat, markFirst: bool)
    requires Trace(mac, states, events) && |events| == k + 1 + |checks| && Checks(checks)
    requires Held(d) && Sendable(d, sent)
    requires events[k] == Batch(CopiesOf(d, sent)) && events[k + 1..] == checks
    requires Shaped(states[k].cache) && |states[k].counters| == MD_BLOCKS
    requires TakeBlocks(mac, states[k].counters, states[k].cache, CopiesOf(d, sent)).ok
    ensures
      var p := TakeBlocks(mac, states[k].counters, states[k].cache, CopiesOf(d, sent));
      WriteStep(mac, states[k], d, sent, checks, markFirst, states[|events|], AfterReply(d, sent, p.evicted, markFirst))
  {
    hide TakeBlocks, LogStep, TestSays, AfterReply, CopiesOf;
    assert Step(mac, states[k], events[k], states[k + 1]);
    var ss := states[k + 1..];
    forall i | 0 <= i < |checks|
      ensures Step(mac, ss[i], checks[i], ss[i + 1])
    {
      assert Step(mac, states[k + 1 + i], events[k + 1 + i], states[k + 1 + i + 1]);
      assert checks[i] == events[k + 1..][i];
    }
    assert ss[0] == states[k + 1] && ss[|checks|] == states[|events|];
  }

  lemma StepsKeepCoherent(mac: Mac, s: Session, d: Driver, events: seq<Event>, t: Session)
    requires Coherent(mac, s, d) && Checks(events) && Steps(mac, s, events, t)
    ensures Coherent(mac, t, d)
  {
    hide Coherent, Step;
    var states :| Trace(mac, states, events) && states[0] == s && states[|events|] == t;
    ChecksKeepCoherent(mac, states, d, events);
  }

  /** A run of the two: a fresh start, then accepted writes and SYNCs. */
  ghost predicate PairRun(mac: Mac, ss: seq<Session>, ds: seq<Driver>) {
    && |ss| == |ds| > 0
    && (exists s :: IsStart(s) && InitStep(s, ss[0])) && DriverStart(mac, ds[0])
    && forall i :: 0 <= i < |ss| - 1 ==> PairStep(mac, ss[i], ds[i], ss[i + 1], ds[i + 1])
  }

  /** Over any run of accepted writes the driver knows exactly which blocks are cached, and what
      it holds for the others is the last block the gatekeeper hashed. */
  lemma {:induction false} CoherentThroughout(mac: Mac, ss: seq<Session>, ds: seq<Driver>)
    requires NeverAllOnes(mac) && PairRun(mac, ss, ds)
    ensures Coherent(mac, ss[|ss| - 1], ds[|ds| - 1])
    decreases |ss|
  {
    hide Coherent, Steps, InitStep, IsStart, DriverStart, TakeBlocks, AfterReply, Overlay, CopiesOf;
    if |ss| == 1 {
      var s :| IsStart(s) && InitStep(s, ss[0]);
      StartIsCoherent(mac, s, ss[0], ds[0]);
    } else {
      var n := |ss| - 1;
      var ss', ds' := ss[..n], ds[..n];
      forall i | 0 <= i < |ss'| - 1
        ensures PairStep(mac, ss'[i], ds'[i], ss'[i + 1], ds'[i + 1])
      {
        assert PairStep(mac, ss[i], ds[i], ss[i + 1], ds[i + 1]);
      }
      CoherentThroughout(mac, ss', ds');
      var s, d, t, e := ss[n - 1], ds[n - 1], ss[n], ds[n];
      assert PairStep(mac, ss[n - 1], ds[n - 1], ss[n - 1 + 1], ds[n - 1 + 1]);
      if sent, events, markFirst :| WriteStep(mac, s, d, sent, events, markFirst, t, e) {
        BatchKeepsCoherent(mac, s, d, sent, markFirst);
        var p := TakeBlocks(mac, s.counters, s.cache, CopiesOf(d, sent));
        StepsKeepCoherent(mac, s.(cache := p.cache), e, events, t);
      } else {
        SyncKeepsCoherent(mac, s, d);
      }
    }
  }
}
