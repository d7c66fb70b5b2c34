/** Batches that may hold cached blocks.  Blocks are taken one after the other; a cached one is skipped
    at its turn, but a later insertion may still push it out, and one that an earlier insertion has
    pushed out is let in again.  All of it is decided by the cache before the batch. */
module Turns {
  import opened LogUpdates
  import opened Freshness
  import opened Coherence
  import opened Replay
  import opened Bytes
  import opened Collections

  /** How many insertions after the present one overwrite the block's slot: 0 for the next slot. */
  function Distance(c: CacheState, md: nat): (d: nat)
    requires |c.tags| == 5 && c.evict < 5 && md in c.tags
    ensures d < 5
  {
    (FindTag(c.tags, md) + 5 - c.evict) % 5
  }

  /** The block is cached and survives k insertions. */
  predicate Kept(c: CacheState, md: nat, k: nat)
    requires |c.tags| == 5 && c.evict < 5
  {
    md in c.tags && k <= Distance(c, md)
  }

  /** How many of the blocks take a slot. */
  function Insertions(c: CacheState, mds: seq<nat>): (k: nat)
    requires |c.tags| == 5 && c.evict < 5
    ensures k <= |mds|
  {
    if mds == [] then 0
    else
      var before := Insertions(c, mds[..|mds| - 1]);
      if Kept(c, mds[|mds| - 1], before) then before else before + 1
  }

  /** Block i takes a slot. */
  predicate Enters(c: CacheState, mds: seq<nat>, i: nat)
    requires |c.tags| == 5 && c.evict < 5 && i < |mds|
  {
    !Kept(c, mds[i], Insertions(c, mds[..i]))
  }

  /** Block i is skipped at its turn and pushed out by a later one. */
  predicate Lost(c: CacheState, mds: seq<nat>, i: nat)
    requires |c.tags| == 5 && c.evict < 5 && i < |mds|
  {
    Kept(c, mds[i], Insertions(c, mds[..i])) && !Kept(c, mds[i], Insertions(c, mds))
  }

  lemma DistanceIs(c: CacheState, md: nat, t: nat)
    requires Shaped(c) && TagsDistinct(c.tags) && md < PLACEHOLDER && t < 5 && c.tags[At(c.evict, t)] == md
    ensures md in c.tags && Distance(c, md) == t
  {
    hide FindTag;
    var i, j := FindTag(c.tags, md), At(c.evict, t);
    assert c.tags[i] == c.tags[j];
    AtBack(c.evict, t);
  }

  lemma AtBack(e: nat, t: nat)
    requires e < 5 && t < 5
    ensures (At(e, t) + 5 - e) % 5 == t
  {
  }

  lemma DistanceReaches(c: CacheState, md: nat)
    requires Shaped(c) && md in c.tags
    ensures c.tags[At(c.evict, Distance(c, md))] == md
  {
    hide FindTag;
    AtForth(c.evict, FindTag(c.tags, md));
  }

  lemma AtForth(e: nat, i: nat)
    requires e < 5 && i < 5
    ensures At(e, (i + 5 - e) % 5) == i
  {
  }

  // ---- What the batch does ----

  ghost predicate EnteredAt(c: CacheState, mds: seq<nat>, tags: seq<nat>, t: nat)
    requires |c.tags| == |tags| == 5 && c.evict < 5
  {
    exists i: nat :: i < |mds| && Enters(c, mds, i) && mds[i] == tags[At(c.evict, t)]
  }

  /** The next slots hold the blocks that have entered, the others what they held. */
  ghost predicate Turned(c: CacheState, mds: seq<nat>, p: Progress) {
    && Shaped(c) && |p.cache.tags| == 5 && |p.evicted| == Insertions(c, mds) && |mds| <= 5
    && p.cache.evict == At(c.evict, |p.evicted|)
    && (forall t: nat :: |p.evicted| <= t < 5 ==> p.cache.tags[At(c.evict, t)] == c.tags[At(c.evict, t)])
    && (forall t: nat :: t < |p.evicted| ==> EnteredAt(c, mds, p.cache.tags, t))
    && (forall i: nat :: i < |mds| && Enters(c, mds, i) ==> Arrived(c.evict, |p.evicted|, p.cache.tags, mds[i]))
  }

  /** A block that is not part of the batch stays exactly if it survives the insertions. */
  lemma OtherIsKept(c: CacheState, mds: seq<nat>, p: Progress, md: nat)
    requires Turned(c, mds, p) && TagsDistinct(c.tags) && md < PLACEHOLDER && md !in mds
    ensures md in p.cache.tags <==> Kept(c, md, |p.evicted|)
  {
    hide At, Insertions, Enters;
    var k, e := |p.evicted|, c.evict;
    if md in c.tags {
      DistanceReaches(c, md);
      var d := Distance(c, md);
      if k <= d { assert p.cache.tags[At(e, d)] == md; }
    }
    if md in p.cache.tags {
      var j: nat :| j < 5 && p.cache.tags[j] == md;
      var t := AtReaches(e, j);
      assert !EnteredAt(c, mds, p.cache.tags, t);
      assert p.cache.tags[At(e, t)] == c.tags[At(e, t)];
      DistanceIs(c, md, t);
    }
  }

  lemma EntersBefore(c: CacheState, mds: seq<nat>, md: nat, i: nat)
    requires |c.tags| == 5 && c.evict < 5 && i < |mds|
    ensures Enters(c, mds + [md], i) <==> Enters(c, mds, i)
  {
    assert (mds + [md])[..i] == mds[..i];
  }

  lemma EntersLast(c: CacheState, mds: seq<nat>, md: nat)
    requires |c.tags| == 5 && c.evict < 5
    ensures Enters(c, mds + [md], |mds|) <==> !Kept(c, md, Insertions(c, mds))
    ensures Insertions(c, mds + [md]) == Insertions(c, mds) + if Kept(c, md, Insertions(c, mds)) then 0 else 1
  {
    assert (mds + [md])[..|mds|] == mds;
  }

  /** One more block. */
  lemma TurnsMore(mac: Mac, counters: seq<u32>, c: CacheState, mds: seq<nat>, p: Progress, b: Slot)
    requires Turned(c, mds, p) && TagsDistinct(c.tags) && |counters| == MD_BLOCKS && |p.cache.slots| == 5
    requires |mds| < 5 && MdOf(b) < PLACEHOLDER && MdOf(b) !in mds && p.cache.evict < 5
    requires p.ok && TakeBlock(mac, counters, p, b).ok
    ensures Turned(c, mds + [MdOf(b)], TakeBlock(mac, counters, p, b))
  {
    hide MdOf, CounterOf, HashHolds, At, Insertions, Enters, Kept;
    var md, r, k, e := MdOf(b), TakeBlock(mac, counters, p, b), |p.evicted|, c.evict;
    var more := mds + [md];
    OtherIsKept(c, mds, p, md);
    EntersLast(c, mds, md);
    AtIsMod(e, k);
    forall i: nat | i < |mds|
      ensures Enters(c, more, i) <==> Enters(c, mds, i)
    {
      EntersBefore(c, mds, md, i);
    }
    forall t: nat | t < |r.evicted|
      ensures EnteredAt(c, more, r.cache.tags, t)
    {
      if t < k {
        AtDistinct(e, t, k);
        assert EnteredAt(c, mds, p.cache.tags, t);
        var i: nat :| i < |mds| && Enters(c, mds, i) && mds[i] == p.cache.tags[At(e, t)];
        assert Enters(c, more, i) && more[i] == r.cache.tags[At(e, t)];
      } else {
        assert Enters(c, more, |mds|) && more[|mds|] == r.cache.tags[At(e, t)];
      }
    }
    forall i: nat | i < |more| && Enters(c, more, i)
      ensures Arrived(e, |r.evicted|, r.cache.tags, more[i])
    {
      if i < |mds| {
        assert Arrived(e, k, p.cache.tags, mds[i]);
        var t: nat :| t < k && p.cache.tags[At(e, t)] == mds[i];
        AtDistinct(e, t, k);
        assert r.cache.tags[At(e, t)] == mds[i];
      } else {
        assert r.cache.tags[At(e, k)] == md;
      }
    }
    forall t: nat | |r.evicted| <= t < 5
      ensures r.cache.tags[At(e, t)] == c.tags[At(e, t)]
    {
      if k < t { AtDistinct(e, k, t); }
    }
  }

  /** The indices of the blocks. */
  ghost predicate AreFor(blocks: seq<Slot>, mds: seq<nat>) {
    |blocks| == |mds| && forall i :: 0 <= i < |mds| ==> MdOf(blocks[i]) == mds[i]
  }

  lemma NoTurns(c: CacheState)
    requires Shaped(c)
    ensures Turned(c, [], Progress(c, [], true))
  {
  }

  lemma {:induction false} BatchTurns(mac: Mac, counters: seq<u32>, c: CacheState, blocks: seq<Slot>, mds: seq<nat>)
    requires Shaped(c) && TagsDistinct(c.tags) && |counters| == MD_BLOCKS && AreFor(blocks, mds)
    requires |mds| <= 5 && Distinct(mds) && forall i :: 0 <= i < |mds| ==> mds[i] < PLACEHOLDER
    requires TakeBlocks(mac, counters, c, blocks).ok
    ensures Turned(c, mds, TakeBlocks(mac, counters, c, blocks))
    decreases |blocks|
  {
    hide MdOf, TakeBlock, Turned;
    if mds == [] {
      NoTurns(c);
    } else {
      var n := |mds| - 1;
      var p := TakeBlocks(mac, counters, c, blocks[..n]);
      OkBefore(mac, counters, p, blocks[n]);
      assert mds == mds[..n] + [mds[n]];
      BatchTurns(mac, counters, c, blocks[..n], mds[..n]);
      TurnsMore(mac, counters, c, mds[..n], p, blocks[n]);
    }
  }

  /** A block of the batch is cached when it ends unless it has been lost. */
  lemma OfBatchIsCached(c: CacheState, mds: seq<nat>, p: Progress, i: nat)
    requires Turned(c, mds, p) && TagsDistinct(c.tags) && Distinct(mds) && i < |mds| && mds[i] < PLACEHOLDER
    ensures mds[i] in p.cache.tags <==> !Lost(c, mds, i)
  {
    hide At, Insertions;
    var k, e, md := |p.evicted|, c.evict, mds[i];
    if Enters(c, mds, i) {
      assert Arrived(e, k, p.cache.tags, md);
    } else {
      DistanceReaches(c, md);
      var d := Distance(c, md);
      if k <= d { assert p.cache.tags[At(e, d)] == md; }
      if md in p.cache.tags {
        var j: nat :| j < 5 && p.cache.tags[j] == md;
        var t := AtReaches(e, j);
        if t < k {
          assert EnteredAt(c, mds, p.cache.tags, t);
        } else {
          assert p.cache.tags[At(e, t)] == c.tags[At(e, t)];
          DistanceIs(c, md, t);
        }
      }
    }
  }

  ghost predicate NoneLost(c: CacheState, mds: seq<nat>)
    requires |c.tags| == 5 && c.evict < 5
  {
    forall i: nat :: i < |mds| ==> !Lost(c, mds, i)
  }

  /** A batch with cached blocks in it leaves all of its blocks in the cache if and only if none of
      them sits at a distance that the insertions before its turn do not reach but all of them do. */
  lemma AllCachedIff(mac: Mac, counters: seq<u32>, c: CacheState, blocks: seq<Slot>, mds: seq<nat>)
    requires Shaped(c) && TagsDistinct(c.tags) && |counters| == MD_BLOCKS && AreFor(blocks, mds)
    requires |mds| <= 5 && Distinct(mds) && forall i :: 0 <= i < |mds| ==> mds[i] < PLACEHOLDER
    requires TakeBlocks(mac, counters, c, blocks).ok
    ensures (forall md :: md in mds ==> md in TakeBlocks(mac, counters, c, blocks).cache.tags) <==> NoneLost(c, mds)
  {
    hide TakeBlocks, Turned, Lost;
    BatchTurns(mac, counters, c, blocks, mds);
    var p := TakeBlocks(mac, counters, c, blocks);
    forall i: nat | i < |mds|
      ensures mds[i] in p.cache.tags <==> !Lost(c, mds, i)
    {
      OfBatchIsCached(c, mds, p, i);
    }
  }

  /** Blocks of which none is cached take the next slots in their order. */
  lemma {:induction false} NewInOrder(mac: Mac, counters: seq<u32>, c: CacheState, blocks: seq<Slot>, mds: seq<nat>,
                                      t: nat)
    requires Shaped(c) && TagsDistinct(c.tags) && |counters| == MD_BLOCKS && AreFor(blocks, mds)
    requires |mds| <= 5 && Distinct(mds) && forall i :: 0 <= i < |mds| ==> mds[i] < PLACEHOLDER && mds[i] !in c.tags
    requires TakeBlocks(mac, counters, c, blocks).ok
    ensures
      var p := TakeBlocks(mac, counters, c, blocks);
      && |p.evicted| == |mds| && p.cache.evict == At(c.evict, |mds|) && |p.cache.tags| == 5
      && (t < |mds| ==> p.cache.tags[At(c.evict, t)] == mds[t])
    decreases |mds|
  {
    hide MdOf, At, Acceptable, Turned, TakeBlock;
    if mds == [] {
      AtZero(c.evict);
    } else {
      var n := |mds| - 1;
      var most, rest := blocks[..n], mds[..n];
      var p := TakeBlocks(mac, counters, c, most);
      OkBefore(mac, counters, p, blocks[n]);
      NewInOrder(mac, counters, c, most, rest, t);
      BatchTurns(mac, counters, c, most, rest);
      OtherIsKept(c, rest, p, mds[n]);
      TakenInOrder(mac, counters, c, p, blocks[n], n, t);
    }
  }

  lemma TakenInOrder(mac: Mac, counters: seq<u32>, c: CacheState, p: Progress, b: Slot, n: nat, t: nat)
    requires |p.cache.tags| == |p.cache.slots| == 5 && p.cache.evict < 5 && |counters| == MD_BLOCKS && n < 5
    requires p.ok && TakeBlock(mac, counters, p, b).ok && MdOf(b) !in p.cache.tags
    requires p.cache.evict == At(c.evict, n) && |p.evicted| == n
    ensures
      var r := TakeBlock(mac, counters, p, b);
      && |r.evicted| == n + 1 && r.cache.evict == At(c.evict, n + 1)
      && r.cache.tags[At(c.evict, n)] == MdOf(b)
      && (t < n ==> r.cache.tags[At(c.evict, t)] == p.cache.tags[At(c.evict, t)])
  {
    hide MdOf, At, Acceptable;
    AtIsMod(c.evict, n);
    if t < n { AtDistinct(c.evict, t, n); }
  }

  lemma AtZero(e: nat)
    requires e < 5
    ensures At(e, 0) == e
  {
  }
}
