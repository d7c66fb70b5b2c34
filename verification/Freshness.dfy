/** Freshness of metadata blocks.  The driver may send any bytes, but it cannot forge a digest:
    a block whose digest checks was hashed by the gatekeeper, in this session or, since the key
    outlives a session, in an earlier one. */
module Freshness {
  import opened Bytes
  import opened Replay
  import opened LogUpdates
  import Timelock

  datatype CacheState = CacheState(tags: seq<nat>, slots: seq<Slot>, evict: nat)

  ghost predicate Shaped(c: CacheState) {
    |c.tags| == 5 && |c.slots| == 5 && c.evict < 5 && forall i :: 0 <= i < 5 ==> c.tags[i] < MD_BLOCKS
  }

  // ---- update_td_metadata_cache ----

  datatype Progress = Progress(cache: CacheState, evicted: seq<Slot>, ok: bool)

  predicate Acceptable(mac: Mac, counters: seq<u32>, b: Slot)
    requires MdOf(b) < |counters|
  {
    HashHolds(mac, b) && CounterOf(b) == counters[MdOf(b)]
  }

  /** One block: out of range or stale stops the batch, a cached one is skipped, any other goes
      into the next slot. */
  function TakeBlock(mac: Mac, counters: seq<u32>, p: Progress, b: Slot): (r: Progress)
    requires |p.cache.tags| == |p.cache.slots| == 5 && p.cache.evict < 5 && |counters| == MD_BLOCKS
    ensures |r.cache.tags| == |r.cache.slots| == 5 && r.cache.evict < 5
  {
    var c, md := p.cache, MdOf(b);
    if !p.ok then p
    else if md >= MD_BLOCKS then p.(ok := false)
    else if md in c.tags then p
    else if !Acceptable(mac, counters, b) then p.(ok := false)
    else Progress(CacheState(c.tags[c.evict := md], c.slots[c.evict := b], (c.evict + 1) % 5),
                  p.evicted + [c.slots[c.evict]], true)
  }

  function TakeBlocks(mac: Mac, counters: seq<u32>, c: CacheState, blocks: seq<Slot>): (r: Progress)
    requires |c.tags| == |c.slots| == 5 && c.evict < 5 && |counters| == MD_BLOCKS
    ensures |r.cache.tags| == |r.cache.slots| == 5 && r.cache.evict < 5
  {
    if blocks == [] then Progress(c, [], true)
    else TakeBlock(mac, counters, TakeBlocks(mac, counters, c, blocks[..|blocks| - 1]), blocks[|blocks| - 1])
  }

  /** A rejected batch keeps what it has inserted but gives the old insertion point back. */
  function Updated(mac: Mac, counters: seq<u32>, c: CacheState, blocks: seq<Slot>): (r: CacheState)
    requires |c.tags| == |c.slots| == 5 && c.evict < 5 && |counters| == MD_BLOCKS
    ensures |r.tags| == |r.slots| == 5 && r.evict < 5
  {
    var p := TakeBlocks(mac, counters, c, blocks);
    if p.ok then p.cache else p.cache.(evict := c.evict)
  }

  // ---- The session ----

  /** The gatekeeper's memory, with the authenticated bytes of every block it has hashed, the latest
      content it hashed for each index, and what earlier sessions hashed under the same key. */
  datatype Session = Session(cache: CacheState, counters: seq<u32>, issued: set<seq<byte>>,
                             latest: seq<seq<byte>>, archive: set<seq<byte>>)

  /** The index that empty cache slots carry as their tag. */
  const PLACEHOLDER: nat := 5119

  /** b is the latest block hashed for md, under its current counter. */
  ghost predicate Current(mac: Mac, s: Session, b: Slot, md: nat) {
    && md < |s.counters| && md < |s.latest|
    && MdOf(b) == md && CounterOf(b) == s.counters[md] && HashHolds(mac, b)
    && b[..4096] == s.latest[md] && b[..HEAD_BYTES] in s.issued
  }

  /** What was hashed for an index never has a counter above the current one, and at the current
      one it is the latest content. */
  ghost predicate Bound(s: Session, head: seq<byte>) {
    && |head| == HEAD_BYTES && U32(head, 4096) < MD_BLOCKS && |s.counters| == |s.latest| == MD_BLOCKS
    && var md := U32(head, 4096);
    md != PLACEHOLDER ==>
      && U32(head, 4100) <= s.counters[md]
      && (U32(head, 4100) == s.counters[md] ==> head[..4096] == s.latest[md])
  }

  ghost predicate IssuedBounded(s: Session) { forall head :: head in s.issued ==> Bound(s, head) }

  ghost predicate SlotsCurrent(mac: Mac, s: Session)
    requires Shaped(s.cache)
  {
    forall i :: 0 <= i < 5 && s.cache.tags[i] != PLACEHOLDER ==> Current(mac, s, s.cache.slots[i], s.cache.tags[i])
  }

  ghost predicate TagsDistinct(tags: seq<nat>) {
    forall i, j :: 0 <= i < j < |tags| && tags[i] == tags[j] ==> tags[i] == PLACEHOLDER
  }

  ghost predicate Fresh(mac: Mac, s: Session) {
    && Shaped(s.cache) && |s.counters| == |s.latest| == MD_BLOCKS
    && IssuedBounded(s) && SlotsCurrent(mac, s) && TagsDistinct(s.cache.tags)
  }

  /** The ideal MAC: digests that check were issued, now or under the same key before. */
  ghost predicate Unforged(mac: Mac, s: Session, blocks: seq<Slot>) {
    forall i :: 0 <= i < |blocks| ==> UnforgedBlock(mac, s, blocks[i])
  }

  ghost predicate UnforgedBlock(mac: Mac, s: Session, b: Slot) {
    HashHolds(mac, b) ==> b[..HEAD_BYTES] in s.issued || b[..HEAD_BYTES] in s.archive
  }

  /** An archived head carries the present counter of its index only with the latest content. */
  ghost predicate HeadTrue(s: Session, head: seq<byte>) {
    |head| == HEAD_BYTES && |s.counters| == |s.latest| == MD_BLOCKS && U32(head, 4096) < PLACEHOLDER
    && U32(head, 4100) == s.counters[U32(head, 4096)] ==>
      head[..4096] == s.latest[U32(head, 4096)]
  }

  ghost predicate ArchiveTrue(s: Session) { forall head :: head in s.archive ==> HeadTrue(s, head) }

  /** What could be let in of the blocks was hashed in this session. */
  ghost predicate Vouched(mac: Mac, s: Session, blocks: seq<Slot>) {
    forall i :: 0 <= i < |blocks| ==> VouchedBlock(mac, s, blocks[i])
  }

  ghost predicate VouchedBlock(mac: Mac, s: Session, b: Slot) {
    MdOf(b) < PLACEHOLDER && MdOf(b) < |s.counters| && Acceptable(mac, s.counters, b) ==> b[..HEAD_BYTES] in s.issued
  }

  /** Every digest that checks was issued in this session. */
  ghost predicate Issued(mac: Mac, s: Session, blocks: seq<Slot>) {
    forall i :: 0 <= i < |blocks| && HashHolds(mac, blocks[i]) ==> blocks[i][..HEAD_BYTES] in s.issued
  }

  // ---- Batches of blocks ----

  lemma HeadOf(b: Slot)
    ensures
      var head := b[..HEAD_BYTES];
      U32(head, 4096) == MdOf(b) && U32(head, 4100) == CounterOf(b) && head[..4096] == b[..4096]
  {
  }

  lemma VouchedIsCurrent(mac: Mac, s: Session, b: Slot)
    requires IssuedBounded(s) && |s.counters| == |s.latest| == MD_BLOCKS && VouchedBlock(mac, s, b)
    requires MdOf(b) < PLACEHOLDER && Acceptable(mac, s.counters, b)
    ensures Current(mac, s, b, MdOf(b))
  {
    hide MdOf, CounterOf, HashHolds;
    HeadOf(b);
    assert Bound(s, b[..HEAD_BYTES]);
  }

  /** An archived block that could be let in is the latest one, which this session has hashed too. */
  lemma ArchivedIsVouched(mac: Mac, s: Session, b: Slot)
    requires Recorded(s) && ArchiveTrue(s) && UnforgedBlock(mac, s, b)
    ensures VouchedBlock(mac, s, b)
  {
    hide MdOf, CounterOf, HashHolds, Head;
    HeadOf(b);
    HeadOfSealed(b);
    if b[..HEAD_BYTES] in s.archive { assert HeadTrue(s, b[..HEAD_BYTES]); }
  }

  lemma IssuedIsVouched(mac: Mac, s: Session, blocks: seq<Slot>)
    requires Issued(mac, s, blocks)
    ensures Vouched(mac, s, blocks) && Unforged(mac, s, blocks)
  {
  }

  lemma UnforgedIsVouched(mac: Mac, s: Session, blocks: seq<Slot>)
    requires Recorded(s) && ArchiveTrue(s) && Unforged(mac, s, blocks)
    ensures Vouched(mac, s, blocks)
  {
    hide Recorded, ArchiveTrue, UnforgedBlock, VouchedBlock;
    forall i | 0 <= i < |blocks|
      ensures VouchedBlock(mac, s, blocks[i])
    {
      ArchivedIsVouched(mac, s, blocks[i]);
    }
  }

  /** Whatever bytes arrive, a block that is let in is the latest one for its index. */
  lemma AcceptedIsCurrent(mac: Mac, s: Session, b: Slot)
    requires IssuedBounded(s) && Recorded(s) && ArchiveTrue(s) && UnforgedBlock(mac, s, b)
    requires MdOf(b) < PLACEHOLDER && Acceptable(mac, s.counters, b)
    ensures Current(mac, s, b, MdOf(b))
  {
    hide IssuedBounded, ArchiveTrue, UnforgedBlock, VouchedBlock, Current, Acceptable;
    ArchivedIsVouched(mac, s, b);
    VouchedIsCurrent(mac, s, b);
  }

  lemma BlockKeepsFresh(mac: Mac, s: Session, p: Progress, b: Slot)
    requires Fresh(mac, s.(cache := p.cache)) && VouchedBlock(mac, s, b)
    ensures Fresh(mac, s.(cache := TakeBlock(mac, s.counters, p, b).cache))
  {
    hide MdOf, CounterOf, HashHolds, Bound;
    var c, md, r := p.cache, MdOf(b), TakeBlock(mac, s.counters, p, b);
    var t := s.(cache := r.cache);
    if r.cache != c {
      SameBounds(s.(cache := c), s);
      if md != PLACEHOLDER { VouchedIsCurrent(mac, s, b); }
      forall i | 0 <= i < 5 && t.cache.tags[i] != PLACEHOLDER
        ensures Current(mac, t, t.cache.slots[i], t.cache.tags[i])
      {
        if i != c.evict {
          assert Current(mac, s.(cache := c), c.slots[i], c.tags[i]);
        }
      }
      SameBounds(s.(cache := c), t);
    }
  }

  lemma SameBounds(s: Session, t: Session)
    requires IssuedBounded(s) && s.issued == t.issued && s.counters == t.counters && s.latest == t.latest
    ensures IssuedBounded(t)
  {
    forall head | head in t.issued
      ensures Bound(t, head)
    {
      assert Bound(s, head);
    }
  }

  lemma {:induction false} BlocksKeepFresh(mac: Mac, s: Session, blocks: seq<Slot>)
    requires Fresh(mac, s) && Vouched(mac, s, blocks)
    ensures Fresh(mac, s.(cache := TakeBlocks(mac, s.counters, s.cache, blocks).cache))
    decreases |blocks|
  {
    hide Fresh, TakeBlock, VouchedBlock;
    ShapeOf(mac, s);
    if blocks == [] {
      assert s.(cache := s.cache) == s;
    } else {
      var most := blocks[..|blocks| - 1];
      assert forall i :: 0 <= i < |most| ==> most[i] == blocks[i];
      BlocksKeepFresh(mac, s, most);
      BlockKeepsFresh(mac, s, TakeBlocks(mac, s.counters, s.cache, most), blocks[|blocks| - 1]);
    }
  }

  lemma ShapeOf(mac: Mac, s: Session)
    requires Fresh(mac, s)
    ensures Whole(s)
  {
  }

  /** Freshness survives every batch, accepted or rejected half-way. */
  lemma UpdateKeepsFresh(mac: Mac, s: Session, blocks: seq<Slot>)
    requires Fresh(mac, s) && Recorded(s) && ArchiveTrue(s) && Unforged(mac, s, blocks)
    ensures Fresh(mac, s.(cache := Updated(mac, s.counters, s.cache, blocks)))
  {
    hide TakeBlocks, Bound, Current, Recorded, ArchiveTrue, Unforged, Vouched;
    UnforgedIsVouched(mac, s, blocks);
    BlocksKeepFresh(mac, s, blocks);
    var c := TakeBlocks(mac, s.counters, s.cache, blocks).cache;
    EvictIsFree(mac, s.(cache := c), s.cache.evict);
    assert s.(cache := c).(cache := c.(evict := s.cache.evict)) == s.(cache := c.(evict := s.cache.evict));
  }

  lemma EvictIsFree(mac: Mac, s: Session, e: nat)
    requires Fresh(mac, s) && e < 5
    ensures Fresh(mac, s.(cache := s.cache.(evict := e)))
  {
    hide MdOf, CounterOf, HashHolds;
    var t := s.(cache := s.cache.(evict := e));
    SameBounds(s, t);
    forall i | 0 <= i < 5 && t.cache.tags[i] != PLACEHOLDER
      ensures Current(mac, t, t.cache.slots[i], t.cache.tags[i])
    {
      assert Current(mac, s, s.cache.slots[i], s.cache.tags[i]);
    }
  }

  // ---- Log blocks ----

  /** The session after a log block: the sealed blocks join what was issued. */
  ghost predicate LogStep(mac: Mac, s: Session, tx: Transaction, t: Session) {
    && Shaped(s.cache) && Shaped(t.cache) && |s.counters| == |s.latest| == |t.latest| == MD_BLOCKS
    && LogApplied(mac, s.cache.tags, s.cache.slots, s.counters, tx, t.cache.slots, t.counters)
    && t.cache.tags == s.cache.tags && t.cache.evict == s.cache.evict && t.archive == s.archive
    && t.issued == s.issued + (set md | md in Mds(tx.pbas) && md in s.cache.tags
                                :: t.cache.slots[FindTag(s.cache.tags, md)][..HEAD_BYTES])
    && forall md :: 0 <= md < MD_BLOCKS ==>
      t.latest[md] == if md in Mds(tx.pbas) && md in s.cache.tags
                      then t.cache.slots[FindTag(s.cache.tags, md)][..4096] else s.latest[md]
  }

  lemma {:induction false} OtherSlotsStay(tags: seq<nat>, slots: seq<Slot>, pbas: seq<nat>, keep: u32, now: u32, i: nat)
    requires |slots| == |tags| && StepSlots(tags, slots, pbas, keep, now).Some?
    requires i < |tags| && (tags[i] !in Mds(pbas) || !Found(tags, i))
    ensures StepSlots(tags, slots, pbas, keep, now).value[i] == slots[i]
    decreases |pbas|
  {
    if pbas != [] {
      var most, last := pbas[..|pbas| - 1], pbas[|pbas| - 1];
      assert pbas == most + [last];
      MdsAppend(most, last);
      OtherSlotsStay(tags, slots, most, keep, now, i);
    }
  }

  /** A slot whose metadata block the log does not name is untouched; one it names is sealed. */
  lemma SlotAfterLog(mac: Mac, s: Session, tx: Transaction, t: Session, i: nat)
    requires LogStep(mac, s, tx, t) && TagsDistinct(s.cache.tags) && i < 5 && s.cache.tags[i] != PLACEHOLDER
    ensures s.cache.tags[i] !in Mds(tx.pbas) ==> t.cache.slots[i] == s.cache.slots[i]
    ensures s.cache.tags[i] in Mds(tx.pbas) ==>
      && FindTag(s.cache.tags, s.cache.tags[i]) == i
      && MdOf(t.cache.slots[i]) == s.cache.tags[i] && HashHolds(mac, t.cache.slots[i])
      && CounterOf(t.cache.slots[i]) == t.counters[s.cache.tags[i]]
  {
    hide StepSlots, Seal, MdOf, CounterOf, HashHolds, Switches, Bump;
    var tags, md := s.cache.tags, s.cache.tags[i];
    var mid := StepSlots(tags, s.cache.slots, tx.pbas, tx.keep, tx.now).value;
    if md in Mds(tx.pbas) {
      FindTagIs(tags, md, i);
      SealParts(mac, mid[i], md, t.counters[md]);
    } else {
      OtherSlotsStay(tags, s.cache.slots, tx.pbas, tx.keep, tx.now, i);
    }
  }

  lemma CountersAfterLog(mac: Mac, s: Session, tx: Transaction, t: Session, md: nat)
    requires LogStep(mac, s, tx, t) && md < MD_BLOCKS
    ensures |t.counters| == MD_BLOCKS
    ensures t.counters[md] == s.counters[md] + if md in Mds(tx.pbas) then 1 else 0
    ensures md in Mds(tx.pbas) ==> md in s.cache.tags
  {
    hide StepSlots, Resealed, Switches;
    if md in Mds(tx.pbas) {
      NamedIsCached(s.cache.tags, s.cache.slots, tx.pbas, tx.keep, tx.now, md);
    }
  }

  lemma {:induction false} NamedIsCached(tags: seq<nat>, slots: seq<Slot>, pbas: seq<nat>, keep: u32, now: u32, md: nat)
    requires |slots| == |tags| && StepSlots(tags, slots, pbas, keep, now).Some? && md in Mds(pbas)
    ensures md in tags
    decreases |pbas|
  {
    if pbas != [] {
      var most, last := pbas[..|pbas| - 1], pbas[|pbas| - 1];
      assert pbas == most + [last];
      MdsAppend(most, last);
      if md in Mds(most) { NamedIsCached(tags, slots, most, keep, now, md); }
    }
  }

  lemma OldHeadStaysBound(mac: Mac, s: Session, tx: Transaction, t: Session, head: seq<byte>)
    requires LogStep(mac, s, tx, t) && Bound(s, head)
    ensures Bound(t, head)
  {
    hide LogApplied, Mds, FindTag;
    CountersAfterLog(mac, s, tx, t, U32(head, 4096));
  }

  lemma NewHeadIsBound(mac: Mac, s: Session, tx: Transaction, t: Session, md: nat)
    requires LogStep(mac, s, tx, t) && TagsDistinct(s.cache.tags) && md in Mds(tx.pbas) && md in s.cache.tags
    ensures Bound(t, t.cache.slots[FindTag(s.cache.tags, md)][..HEAD_BYTES])
  {
    hide LogApplied, Mds, MdOf, CounterOf, HashHolds;
    var i := FindTag(s.cache.tags, md);
    var b := t.cache.slots[i];
    HeadOf(b);
    CountersAfterLog(mac, s, tx, t, md);
    PlaceholderSlot(mac, s, tx, t, md);
  }

  /** A named block is sealed with its own index even under the placeholder tag. */
  lemma PlaceholderSlot(mac: Mac, s: Session, tx: Transaction, t: Session, md: nat)
    requires LogStep(mac, s, tx, t) && md in Mds(tx.pbas) && md in s.cache.tags
    ensures
      var b := t.cache.slots[FindTag(s.cache.tags, md)];
      && md < MD_BLOCKS && |t.counters| == MD_BLOCKS
      && MdOf(b) == md && CounterOf(b) == t.counters[md] && HashHolds(mac, b)
  {
    hide StepSlots, Seal, MdOf, CounterOf, HashHolds, Switches, Bump;
    var tags, i := s.cache.tags, FindTag(s.cache.tags, md);
    var mid := StepSlots(tags, s.cache.slots, tx.pbas, tx.keep, tx.now).value;
    assert Found(tags, i);
    SealParts(mac, mid[i], md, t.counters[md]);
  }

  /** Freshness survives every log block that does not halt the gatekeeper. */
  lemma LogKeepsFresh(mac: Mac, s: Session, tx: Transaction, t: Session)
    requires Fresh(mac, s) && LogStep(mac, s, tx, t)
    ensures Fresh(mac, t)
  {
    hide LogApplied, Mds, Bound, MdOf, CounterOf, HashHolds, FindTag;
    CountersAfterLog(mac, s, tx, t, 0);
    forall head | head in t.issued
      ensures Bound(t, head)
    {
      if head in s.issued {
        assert Bound(s, head);
        OldHeadStaysBound(mac, s, tx, t, head);
      } else {
        var md :| md in Mds(tx.pbas) && md in s.cache.tags
                  && head == t.cache.slots[FindTag(s.cache.tags, md)][..HEAD_BYTES];
        NewHeadIsBound(mac, s, tx, t, md);
      }
    }
    forall i | 0 <= i < 5 && t.cache.tags[i] != PLACEHOLDER
      ensures Current(mac, t, t.cache.slots[i], t.cache.tags[i])
    {
      assert Current(mac, s, s.cache.slots[i], s.cache.tags[i]);
      SlotAfterLog(mac, s, tx, t, i);
      CountersAfterLog(mac, s, tx, t, s.cache.tags[i]);
    }
  }

  /** The session after a log block with the given new slots and counters. */
  ghost function AfterLog(s: Session, tx: Transaction, slots: seq<Slot>, counters: seq<u32>): Session
    requires |slots| == 5 && |s.latest| == MD_BLOCKS && |s.cache.tags| == 5
  {
    var tags := s.cache.tags;
    Session(s.cache.(slots := slots), counters,
            s.issued + (set md | md in Mds(tx.pbas) && md in tags :: slots[FindTag(tags, md)][..HEAD_BYTES]),
            seq(MD_BLOCKS, md requires 0 <= md < MD_BLOCKS =>
              if md in Mds(tx.pbas) && md in tags then slots[FindTag(tags, md)][..4096] else s.latest[md]),
            s.archive)
  }

  /** A batch leaves tags that index metadata blocks. */
  lemma {:induction false} BatchKeepsShape(mac: Mac, counters: seq<u32>, c: CacheState, blocks: seq<Slot>)
    requires Shaped(c) && |counters| == MD_BLOCKS
    ensures Shaped(TakeBlocks(mac, counters, c, blocks).cache) && Shaped(Updated(mac, counters, c, blocks))
    decreases |blocks|
  {
    hide HashHolds, MdOf, CounterOf;
    if blocks != [] { BatchKeepsShape(mac, counters, c, blocks[..|blocks| - 1]); }
  }

  /** What ComputeLogUpdates ensures is a step of the session. */
  lemma AppliedIsStep(mac: Mac, s: Session, tx: Transaction, slots: seq<Slot>, counters: seq<u32>)
    requires Shaped(s.cache) && |s.counters| == |s.latest| == MD_BLOCKS && |slots| == 5
    requires LogApplied(mac, s.cache.tags, s.cache.slots, s.counters, tx, slots, counters)
    ensures LogStep(mac, s, tx, AfterLog(s, tx, slots, counters))
  {
    hide LogApplied, Mds, FindTag;
  }

  // ---- InitCounters ----

  /** MD_INIT_STATE over the block: keep 0, time 1, so every entry is free. */
  function InitContent(): (c: seq<byte>)
    ensures |c| == 4096
  {
    seq(4096, i requires 0 <= i < 4096 => if i % 8 == 4 then 1 else 0)
  }

  lemma InitialByte(o: nat, j: nat)
    requires o % 8 == 0 && o + j < 4096 && j < 8
    ensures Int(InitContent()[o + j]) == if j == 4 then 1 else 0
  {
    IntOf(InitContent()[o + j]);
    assert (o + j) % 8 == j;
  }

  lemma InitialEntry(o: nat)
    requires o % 8 == 0 && o + 8 <= 4096
    ensures Timelock.EntryAt(InitContent(), o) == Timelock.Entry(0, 1)
  {
    hide Word4, Int, InitContent;
    var c := InitContent();
    InitialByte(o, 0);
    InitialByte(o, 1);
    InitialByte(o, 2);
    InitialByte(o, 3);
    LowWord(c, o);
    InitialByte(o, 4);
    InitialByte(o, 5);
    InitialByte(o, 6);
    InitialByte(o, 7);
    assert c[o + 4 + 1] == c[o + 5] && c[o + 4 + 2] == c[o + 6] && c[o + 4 + 3] == c[o + 7];
    LowWord(c, o + 4);
  }

  /** The block handle_init hashes and sends for an index. */
  function InitBlock(mac: Mac, md: u32, counter: u32): Slot {
    Seal(mac, InitContent() + seq(40, i => 0), md, counter)
  }

  lemma InitBlockIs(mac: Mac, md: u32, counter: u32)
    ensures InitBlock(mac, md, counter) == Seal(mac, InitContent() + seq(40, i => 0 as byte), md, counter)
  {
  }

  /** The authenticated bytes of a block. */
  function Head(content: seq<byte>, md: u32, counter: u32): seq<byte> {
    content + Bytes32(md) + Bytes32(counter)
  }

  /** What was last hashed for each index is on record under the current counter. */
  ghost predicate Recorded(s: Session) {
    && |s.counters| == |s.latest| == MD_BLOCKS
    && forall md: nat :: md < PLACEHOLDER ==>
      |s.latest[md]| == 4096 && Head(s.latest[md], md, s.counters[md]) in s.issued
  }

  /** A new session: empty cache, counters zero, nothing hashed yet; the archive is what it is. */
  ghost predicate IsStart(s: Session) {
    && Shaped(s.cache) && s.cache.evict == 0
    && (forall i :: 0 <= i < 5 ==>
         s.cache.tags[i] == PLACEHOLDER && forall k :: 0 <= k < SLOT_BYTES ==> s.cache.slots[i][k] == 255)
    && |s.counters| == |s.latest| == MD_BLOCKS && (forall md :: 0 <= md < MD_BLOCKS ==> s.counters[md] == 0)
    && s.issued == {}
  }

  lemma StartHolds(c: CacheState, counters: seq<u32>, archive: set<seq<byte>>)
    requires |c.tags| == |c.slots| == 5 && c.evict == 0 && |counters| == MD_BLOCKS
    requires forall i :: 0 <= i < 5 ==>
      c.tags[i] == PLACEHOLDER && forall k :: 0 <= k < SLOT_BYTES ==> c.slots[i][k] == 255
    requires forall md :: 0 <= md < MD_BLOCKS ==> counters[md] == 0
    ensures IsStart(Session(c, counters, {}, seq(MD_BLOCKS, i => []), archive))
  {
  }

  /** handle_init without a replay: the initial content is hashed for every index under its
      present counter, and the insertion point starts over. */
  ghost predicate InitStep(s: Session, t: Session) {
    && |s.counters| == |t.latest| == MD_BLOCKS && t.cache == s.cache.(evict := 0) && t.counters == s.counters
    && t.archive == s.archive && (forall md :: 0 <= md < MD_BLOCKS ==> t.latest[md] == InitContent())
    && t.issued == s.issued + (set md: nat | md < MD_BLOCKS :: Head(InitContent(), md, s.counters[md]))
  }

  ghost function AfterInit(s: Session): Session
    requires |s.counters| == MD_BLOCKS
  {
    Session(s.cache.(evict := 0), s.counters,
            s.issued + (set md: nat | md < MD_BLOCKS :: Head(InitContent(), md, s.counters[md])),
            seq(MD_BLOCKS, md => InitContent()), s.archive)
  }

  lemma AfterInitIsStep(s: Session)
    requires |s.counters| == MD_BLOCKS
    ensures InitStep(s, AfterInit(s))
  {
    hide InitContent, Head;
  }

  lemma HeadParts(content: seq<byte>, md: u32, counter: u32)
    requires |content| == 4096
    ensures
      var h := Head(content, md, counter);
      |h| == HEAD_BYTES && U32(h, 4096) == md && U32(h, 4100) == counter && h[..4096] == content
  {
    hide Bytes32, Word4;
    WordRoundTrip(md);
    WordRoundTrip(counter);
    var h := Head(content, md, counter);
    assert h[..4096] == content;
    assert h[4096..4100] == Bytes32(md) && h[4100..HEAD_BYTES] == Bytes32(counter);
    assert U32(h, 4096) == U32(h[4096..4100], 0) && U32(h, 4100) == U32(h[4100..HEAD_BYTES], 0);
  }

  lemma HeadOfSealed(b: Slot)
    ensures b[..HEAD_BYTES] == Head(b[..4096], MdOf(b), CounterOf(b))
  {
    hide Bytes32, Word4;
    BytesRoundTrip(b, 4096);
    BytesRoundTrip(b, 4100);
    assert b[..HEAD_BYTES] == b[..4096] + b[4096..4100] + b[4100..HEAD_BYTES];
  }

  /** One InitCounters on a new session makes it fresh. */
  lemma InitIsFresh(mac: Mac, s: Session, t: Session)
    requires IsStart(s) && InitStep(s, t)
    ensures Fresh(mac, t) && Recorded(t)
  {
    hide Bytes32, InitContent, Head;
    forall head | head in t.issued
      ensures Bound(t, head)
    {
      var md: nat :| md < MD_BLOCKS && head == Head(InitContent(), md, s.counters[md]);
      HeadParts(InitContent(), md, s.counters[md]);
    }
  }

  lemma LogKeepsRecorded(mac: Mac, s: Session, tx: Transaction, t: Session)
    requires Recorded(s) && LogStep(mac, s, tx, t)
    ensures Recorded(t)
  {
    hide LogApplied, Mds, MdOf, CounterOf, HashHolds, FindTag, Head;
    CountersAfterLog(mac, s, tx, t, 0);
    forall md: nat | md < PLACEHOLDER
      ensures |t.latest[md]| == 4096 && Head(t.latest[md], md, t.counters[md]) in t.issued
    {
      CountersAfterLog(mac, s, tx, t, md);
      if md in Mds(tx.pbas) {
        PlaceholderSlot(mac, s, tx, t, md);
        HeadOfSealed(t.cache.slots[FindTag(s.cache.tags, md)]);
      }
    }
  }

  /** A second InitCounters keeps freshness exactly when every latest content still is the
      initial one: the counters are not reset, so one counter would name two contents. */
  lemma SecondInitIsFreshIff(mac: Mac, s: Session, t: Session)
    requires Fresh(mac, s) && Recorded(s) && InitStep(s, t)
    ensures Fresh(mac, t) <==> forall md: nat :: md < PLACEHOLDER ==> s.latest[md] == InitContent()
  {
    hide Bytes32, InitContent, Head, MdOf, CounterOf, HashHolds;
    if Fresh(mac, t) {
      forall md: nat | md < PLACEHOLDER
        ensures s.latest[md] == InitContent()
      {
        HeadParts(s.latest[md], md, s.counters[md]);
        assert Bound(t, Head(s.latest[md], md, s.counters[md]));
      }
    }
    if forall md: nat :: md < PLACEHOLDER ==> s.latest[md] == InitContent() {
      forall head | head in t.issued
        ensures Bound(t, head)
      {
        if head in s.issued {
          assert Bound(s, head);
        } else {
          var md: nat :| md < MD_BLOCKS && head == Head(InitContent(), md, s.counters[md]);
          HeadParts(InitContent(), md, s.counters[md]);
        }
      }
      forall i | 0 <= i < 5 && t.cache.tags[i] != PLACEHOLDER
        ensures Current(mac, t, t.cache.slots[i], t.cache.tags[i])
      {
        assert Current(mac, s, s.cache.slots[i], s.cache.tags[i]);
      }
    }
  }

  // ---- Runs ----

  /** A session's sizes. */
  ghost predicate Whole(s: Session) { Shaped(s.cache) && |s.counters| == |s.latest| == MD_BLOCKS }

  ghost predicate BatchStep(mac: Mac, s: Session, blocks: seq<Slot>, t: Session) {
    Whole(s) && t == s.(cache := Updated(mac, s.counters, s.cache, blocks))
  }

  /** What the gatekeeper does that matters to its metadata: InitCounters, a batch of blocks from
      the driver, the test of a block of a write at a clock value, a log block executed. */
  datatype Event = Init | Batch(blocks: seq<Slot>) | Tested(pba: nat, now: u32, free: bool) | Logged(tx: Transaction)

  /** The cached entry is found free, or not. */
  ghost predicate TestSays(s: Session, pba: nat, now: u32, free: bool) {
    && Whole(s) && pba / 512 in s.cache.tags
    && (free <==> Timelock.IsFree(CachedEntry(s.cache.tags, s.cache.slots, pba), now))
  }

  ghost predicate Step(mac: Mac, s: Session, e: Event, t: Session) {
    match e
    case Init => Whole(s) && InitStep(s, t)
    case Batch(blocks) => BatchStep(mac, s, blocks, t)
    case Tested(pba, now, free) => TestSays(s, pba, now, free) && t == s
    case Logged(tx) => LogStep(mac, s, tx, t)
  }

  /** The states that the events lead through. */
  ghost predicate Trace(mac: Mac, states: seq<Session>, events: seq<Event>) {
    && |states| == |events| + 1
    && forall i :: 0 <= i < |events| ==> Step(mac, states[i], events[i], states[i + 1])
  }

  /** The ideal MAC over a trace: no batch carries a digest that checks and was never issued. */
  ghost predicate NothingForged(mac: Mac, states: seq<Session>, events: seq<Event>)
    requires |states| == |events| + 1
  {
    forall i :: 0 <= i < |events| && events[i].Batch? ==> Unforged(mac, states[i], events[i].blocks)
  }

  /** A session: a fresh start, one InitCounters, then anything else. */
  ghost predicate Run(mac: Mac, states: seq<Session>, events: seq<Event>) {
    && Trace(mac, states, events) && NothingForged(mac, states, events)
    && IsStart(states[0]) && |events| > 0
    && forall i :: 0 <= i < |events| ==> (events[i].Init? <==> i == 0)
  }

  /** Tests and log blocks only. */
  ghost predicate Checks(events: seq<Event>) {
    forall i :: 0 <= i < |events| ==> events[i].Tested? || events[i].Logged?
  }

  lemma TraceGrows(mac: Mac, states: seq<Session>, events: seq<Event>, e: Event, t: Session)
    requires Trace(mac, states, events) && Step(mac, states[|events|], e, t)
    ensures Trace(mac, states + [t], events + [e])
  {
    hide Step;
    var ss, es := states + [t], events + [e];
    forall i | 0 <= i < |es|
      ensures Step(mac, ss[i], es[i], ss[i + 1])
    {
      if i < |events| { assert Step(mac, states[i], events[i], states[i + 1]); }
    }
  }

  lemma TraceBefore(mac: Mac, states: seq<Session>, events: seq<Event>, n: nat)
    requires Trace(mac, states, events) && n <= |events|
    ensures Trace(mac, states[..n + 1], events[..n])
  {
    hide Step;
    forall i | 0 <= i < n
      ensures Step(mac, states[..n + 1][i], events[..n][i], states[..n + 1][i + 1])
    {
      assert Step(mac, states[i], events[i], states[i + 1]);
    }
  }

  lemma RunBefore(mac: Mac, states: seq<Session>, events: seq<Event>, n: nat)
    requires Run(mac, states, events) && 0 < n <= |events|
    ensures Run(mac, states[..n + 1], events[..n])
    ensures n < |events| ==> Step(mac, states[n], events[n], states[n + 1])
    ensures n < |events| && events[n].Batch? ==> Unforged(mac, states[n], events[n].blocks)
  {
    hide Step, IsStart, Unforged;
    TraceBefore(mac, states, events, n);
    var ss, es := states[..n + 1], events[..n];
    forall i | 0 <= i < n && es[i].Batch?
      ensures Unforged(mac, ss[i], es[i].blocks)
    {
      assert Unforged(mac, states[i], events[i].blocks);
    }
  }

  lemma RunGrows(mac: Mac, states: seq<Session>, events: seq<Event>, e: Event, t: Session)
    requires Run(mac, states, events) && Step(mac, states[|events|], e, t) && !e.Init?
    requires e.Batch? ==> Unforged(mac, states[|events|], e.blocks)
    ensures Run(mac, states + [t], events + [e])
  {
    hide Step, IsStart, Unforged;
    TraceGrows(mac, states, events, e, t);
    var ss, es := states + [t], events + [e];
    forall i | 0 <= i < |es| && es[i].Batch?
      ensures Unforged(mac, ss[i], es[i].blocks)
    {
      if i < |events| { assert Unforged(mac, states[i], events[i].blocks); }
    }
  }

  lemma FirstStep(mac: Mac, states: seq<Session>, events: seq<Event>)
    requires Run(mac, states, events)
    ensures IsStart(states[0]) && InitStep(states[0], states[1])
  {
    hide InitStep, IsStart;
    assert Step(mac, states[0], events[0], states[0 + 1]);
  }

  /** Over any run whose archive is true to it, every cached block but the placeholder's is the latest
      the gatekeeper hashed, under its current counter, and sits in one slot only. */
  lemma {:induction false} FreshThroughout(mac: Mac, states: seq<Session>, events: seq<Event>)
    requires Run(mac, states, events)
    requires forall i :: 0 < i < |events| ==> ArchiveTrue(states[i])
    ensures Fresh(mac, states[|events|]) && Recorded(states[|events|])
    decreases |events|
  {
    hide Fresh, Recorded, Step, IsStart, Unforged, InitStep, ArchiveTrue;
    if |events| == 1 {
      FirstStep(mac, states, events);
      InitIsFresh(mac, states[0], states[1]);
    } else {
      var n := |events| - 1;
      RunBefore(mac, states, events, n);
      FreshThroughout(mac, states[..n + 1], events[..n]);
      StepKeepsFresh(mac, states[n], events[n], states[n + 1]);
    }
  }

  /** What each step but InitCounters keeps. */
  lemma StepKeepsFresh(mac: Mac, s: Session, e: Event, t: Session)
    requires Fresh(mac, s) && Recorded(s) && ArchiveTrue(s) && Step(mac, s, e, t) && !e.Init?
    requires e.Batch? ==> Unforged(mac, s, e.blocks)
    ensures Fresh(mac, t) && Recorded(t)
  {
    hide Fresh, Recorded, Updated, LogStep, TestSays, Unforged, ArchiveTrue;
    match e
    case Batch(blocks) =>
      UpdateKeepsFresh(mac, s, blocks);
      SameRecord(s, t);
    case Tested(_, _, _) =>
    case Logged(tx) =>
      LogKeepsFresh(mac, s, tx, t);
      LogKeepsRecorded(mac, s, tx, t);
  }

  /** The archive is that of the start. */
  lemma {:induction false} ArchiveStays(mac: Mac, states: seq<Session>, events: seq<Event>, n: nat)
    requires Trace(mac, states, events) && n <= |events|
    ensures states[n].archive == states[0].archive
  {
    hide LogApplied, Mds, FindTag, Updated, TestSays;
    if n > 0 {
      ArchiveStays(mac, states, events, n - 1);
      assert Step(mac, states[n - 1], events[n - 1], states[n - 1 + 1]);
    }
  }

  lemma SameRecord(s: Session, t: Session)
    requires Recorded(s) && s.issued == t.issued && s.counters == t.counters && s.latest == t.latest
    ensures Recorded(t)
  {
  }

  /** A block that is not cached is neither tested nor named by a log block: the gatekeeper halts
      instead. */
  lemma StepNeedsCached(mac: Mac, s: Session, e: Event, t: Session, md: nat)
    requires Step(mac, s, e, t) && md !in s.cache.tags
    ensures e.Tested? ==> e.pba / 512 != md
    ensures e.Logged? ==> md !in Mds(e.tx.pbas)
  {
    hide StepSlots, Resealed, Switches, Bump;
    if e.Logged? && md in Mds(e.tx.pbas) {
      NamedIsCached(s.cache.tags, s.cache.slots, e.tx.pbas, e.tx.keep, e.tx.now, md);
    }
  }
}
