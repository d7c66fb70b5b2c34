/** The gatekeeper's metadata cache: five slots of bytes with their tags, the freshness
    counters, and the loops that update them in place. */
module Gatekeeper {
  import opened Bytes
  import opened Timelock
  import opened Replay
  import opened LogUpdates
  import opened Freshness
  import opened LogChain
  import opened Requests
  import opened Executed
  import opened Recovery
  import opened Collections

  /** EVICT_OBJ_SIZE */
  const REPLY_BYTES: nat := 20681

  class Checker {
    const mac: Mac
    const slots: seq<array<byte>>
    const tags: array<nat>
    const counters: array<u32>
    var evictIdx: nat
    var logTail: nat
    var disk: seq<Block>

    /** What this session has gone through so far. */
    ghost var states: seq<Session>
    ghost var events: seq<Event>

    ghost predicate Valid()
      reads this`evictIdx
    {
      && |slots| == 5 && tags.Length == 5 && counters.Length == MD_BLOCKS && tags as object != counters
      && (forall i :: 0 <= i < 5 ==> slots[i].Length == SLOT_BYTES)
      && (forall i, j :: 0 <= i < j < 5 ==> slots[i] != slots[j])
      && evictIdx < 5
    }

    /** The bytes of the five slots. */
    ghost function Views(): (v: seq<Slot>)
      requires Valid()
      reads this`evictIdx, slots
      ensures |v| == 5
    {
      [slots[0][..], slots[1][..], slots[2][..], slots[3][..], slots[4][..]]
    }

    lemma ViewAt(i: nat)
      requires Valid() && i < 5
      ensures Views()[i] == slots[i][..]
    {
    }

    ghost function Cache(): CacheState
      requires Valid()
      reads this`evictIdx, slots, tags
    {
      CacheState(tags[..], Views(), evictIdx)
    }

    /** The history so far is a trace. */
    ghost predicate History()
      reads this`states, this`events
    {
      |states| == |events| + 1 && Trace(mac, states, events) && OnTheDisk(events)
    }

    /** Its last state is the present one. */
    ghost predicate Traced()
      requires Valid()
      reads this`evictIdx, this`states, this`events, slots, tags, counters
    {
      History() && Shows(states[|events|], Cache(), counters[..])
    }

    ghost method Record(e: Event, t: Session)
      requires History() && Step(mac, states[|events|], e, t) && (e.Logged? ==> InRange(e.tx.pbas))
      modifies this`states, this`events
      ensures History() && states == old(states) + [t] && events == old(events) + [e]
    {
      TraceGrows(mac, states, events, e, t);
      states, events := states + [t], events + [e];
    }

    /** A new session: every slot all ones under the placeholder tag, every counter zero.  The
        archive is what earlier sessions have hashed under this key. */
    constructor (mac: Mac, tail: nat, disk: seq<Block>, ghost archive: set<seq<byte>>)
      ensures Valid() && this.mac == mac && logTail == tail && this.disk == disk
      ensures fresh(slots) && fresh(tags) && fresh(counters)
      ensures Traced() && |states| == 1 && IsStart(states[0]) && states[0].archive == archive && events == []
    {
      this.mac := mac;
      evictIdx, logTail, this.disk := 0, tail, disk;
      tags := new nat[5](_ => PLACEHOLDER);
      counters := new u32[MD_BLOCKS](_ => 0);
      var empty := EmptySlots();
      slots := empty;
      new;
      hide IsStart, Trace, OnTheDisk, Shows, Views;
      label New:
      ghost var c, cs := Cache(), counters[..];
      forall i: nat | i < 5
        ensures c.tags[i] == PLACEHOLDER && forall k :: 0 <= k < SLOT_BYTES ==> c.slots[i][k] == 255
      {
        ViewAt(i);
      }
      StartHolds(c, cs, archive);
      StartIsTraced(mac, c, cs, archive);
      states, events := [Session(c, cs, {}, seq(MD_BLOCKS, i => []), archive)], [];
      SameViews@New();
    }

    static method EmptySlots() returns (slots: seq<array<byte>>)
      ensures |slots| == 5 && fresh(slots) && forall i, j :: 0 <= i < j < 5 ==> slots[i] != slots[j]
      ensures forall i :: 0 <= i < 5 ==> slots[i].Length == SLOT_BYTES
      ensures forall i, k :: 0 <= i < 5 && 0 <= k < SLOT_BYTES ==> slots[i][k] == 255
    {
      slots := [];
      while |slots| < 5
        invariant |slots| <= 5 && fresh(slots)
        invariant forall i, j :: 0 <= i < j < |slots| ==> slots[i] != slots[j]
        invariant forall i :: 0 <= i < |slots| ==> slots[i].Length == SLOT_BYTES
        invariant forall i, k :: 0 <= i < |slots| && 0 <= k < SLOT_BYTES ==> slots[i][k] == 255
      {
        var b := new byte[SLOT_BYTES](_ => 255);
        slots := slots + [b];
      }
    }

    /** The first loop of handle_init: every index is sent its initial block, hashed under its
        present counter, and the insertion point starts over. */
    method InitCounters() returns (sent: seq<Slot>)
      requires Valid() && Traced()
      modifies this`evictIdx, this`states, this`events
      ensures |sent| == MD_BLOCKS
      ensures forall md :: 0 <= md < MD_BLOCKS ==> sent[md] == InitBlock(mac, md, counters[md])
      ensures Valid() && Traced() && evictIdx == 0 && old(states) <= states && events == old(events) + [Init]
    {
      hide InitBlock, Seal, InitStep, AfterInit;
      sent := [];
      while |sent| < MD_BLOCKS
        invariant |sent| <= MD_BLOCKS && Valid() && Traced() && states == old(states) && events == old(events)
        invariant forall md :: 0 <= md < |sent| ==> sent[md] == InitBlock(mac, md, counters[md])
      {
        InitBlockIs(mac, |sent|, counters[|sent|]);
        var block: Slot := InitContent() + seq(40, i => 0 as byte);
        sent := sent + [Seal(mac, block, |sent|, counters[|sent|])];
      }
      label Sent:
      AfterInitIsStep(states[|events|]);
      ShownAfterInit(states[|events|], Cache(), counters[..]);
      evictIdx := 0;
      SameViews@Sent();
      Record(Init, AfterInit(states[|events|]));
    }

    /** Only slot i has changed. */
    twostate lemma ViewsUpdated(i: nat)
      requires old(Valid()) && Valid() && i < 5
      requires forall j :: 0 <= j < 5 && j != i ==> slots[j][..] == old(slots[j][..])
      ensures Views() == old(Views())[i := slots[i][..]]
    {
    }

    twostate lemma SameViews()
      requires old(Valid()) && Valid()
      requires forall j :: 0 <= j < 5 ==> slots[j][..] == old(slots[j][..])
      ensures Views() == old(Views())
    {
    }

    /** scan_cache */
    method ScanCache(md: nat) returns (i: nat)
      requires Valid()
      ensures i == FindTag(tags[..], md)
    {
      i := 0;
      while i < 5 && tags[i] != md
        invariant i <= 5
        invariant forall j :: 0 <= j < i ==> tags[j] != md
      {
        i := i + 1;
      }
      FindTagIs(tags[..], md, i);
    }

    /** HashBlock: index, counter and digest are written into the slot. */
    method HashBlock(i: nat, md: u32, counter: u32)
      requires Valid() && i < 5
      modifies slots[i]
      ensures Views() == old(Views())[i := Seal(mac, old(Views())[i], md, counter)]
    {
      hide Bytes32;
      var b := slots[i];
      ghost var was := b[..];
      var head := b[..4096] + Bytes32(md) + Bytes32(counter);
      var digest := mac(head);
      forall k | 4096 <= k < HEAD_BYTES { b[k] := head[k]; }
      forall k | HEAD_BYTES <= k < SLOT_BYTES { b[k] := digest[k - HEAD_BYTES]; }
      assert b[..] == head + digest;
      ViewsUpdated(i);
      assert old(Views())[i] == was;
    }

    ghost predicate CanRead(log: array<byte>, o: nat)
      requires Valid()
      reads this`evictIdx
    {
      log !in slots && o + 4096 <= log.Length
    }

    /** One named address: the overflow test and the byte step. */
    method StepOne(i: nat, pba: nat, log: array<byte>, o: nat) returns (ok: bool)
      requires Valid() && CanRead(log, o) && i == FindTag(tags[..], pba / 512) && i < 5
      modifies slots[i]
      ensures ok <==> StepSlot(tags[..], old(Views()), pba, U32(log[..], o + 4084), U32(log[..], o + 4088)).Some?
      ensures ok ==>
        Views() == StepSlot(tags[..], old(Views()), pba, U32(log[..], o + 4084), U32(log[..], o + 4088)).value
    {
      hide WouldOverflow, Word4, PutEntry, Next, FindTag;
      var at := 8 * (pba % 512);
      ViewAt(i);
      OverflowIsCarry(slots[i][..], at, log[..], o + 4088);
      if WouldOverflow(slots[i][..], at, log[..], o + 4088) {
        return false;
      }
      StepBytes(slots[i], at, log, o + 4084, log, o + 4088);
      ViewsUpdated(i);
      return true;
    }

    /** The cache position for the next address: that of the previous one if the metadata block
        is the same, else a new scan, whose result joins the touched positions. */
    method Locate(md: nat, prevMd: nat, prevIdx: nat, touched: array<nat>, count: nat, ghost pbas: seq<nat>)
      returns (ok: bool, idx: nat, count': nat)
      requires Valid() && touched.Length == 10 && count <= 10 && touched != tags
      requires Previous(tags[..], pbas, prevMd, prevIdx, touched[..count]) && md < MD_BLOCKS
      requires Touches(tags[..], touched[..count], Mds(pbas))
      modifies touched
      ensures !ok ==> md !in tags[..] || (count == 10 && !SameAsLast(pbas, md))
      ensures count' <= 10 && (ok ==> idx == FindTag(tags[..], md) < 5)
      ensures ok ==> idx in touched[..count'] && Touches(tags[..], touched[..count'], Mds(pbas) + {md})
      ensures ok ==> count' == count + if SameAsLast(pbas, md) then 0 else 1
    {
      hide Touches, Mds;
      idx, count' := prevIdx, count;
      if prevMd != md {
        idx := ScanCache(md);
        if idx == 5 || count == 10 { return false, idx, count; }
        ghost var before := touched[..count];
        touched[count] := idx;
        count' := count + 1;
        assert touched[..count'] == before + [idx];
        TouchesMore(tags[..], before, Mds(pbas), md);
      } else {
        TouchesMore(tags[..], touched[..count], Mds(pbas), md);
      }
      ok := true;
    }

    /** The first loop of ComputeLogUpdates. */
    method StepNamed(log: array<byte>, o: nat) returns (ok: bool, touched: array<nat>, count: nat)
      requires Valid() && CanRead(log, o)
      modifies slots
      ensures fresh(touched) && count <= touched.Length
      ensures
        var tx := TxAt(log[..], o);
        && (ok <==> StepSlots(tags[..], old(Views()), tx.pbas, tx.keep, tx.now).Some? && Switches(tx.pbas) <= 10)
        && (ok ==> Views() == StepSlots(tags[..], old(Views()), tx.pbas, tx.keep, tx.now).value
                   && Touches(tags[..], touched[..count], Mds(tx.pbas)))
    {
      hide StepSlot, StepSlots, Switches, Touches, Mds, Word4, Previous, SameAsLast, FindTag, LogPbas;
      ghost var was, ts, bytes := Views(), tags[..], log[..];
      ghost var keep, now := U32(bytes, o + 4084), U32(bytes, o + 4088);
      var prevMd: nat, prevIdx: nat := 0xFFFF_FFFF, 0;
      touched, count := new nat[10](_ => 0), 0;
      StartOfLog(ts, was, bytes, o, keep, now);
      assert touched[..0] == [];
      var i: nat := 0;
      while i < 1021
        invariant i <= 1021 && count <= 10
        invariant StepSlots(ts, was, LogPbas(bytes, o, i), keep, now) == Some(Views())
        invariant count == Switches(LogPbas(bytes, o, i))
        invariant Touches(ts, touched[..count], Mds(LogPbas(bytes, o, i)))
        invariant Previous(ts, LogPbas(bytes, o, i), prevMd, prevIdx, touched[..count])
      {
        ghost var pbas := LogPbas(bytes, o, i);
        var pba: nat := U32(log[..], o + 4 * i);
        NextWord(bytes, o, i);
        i := i + 1;
        if pba < TOTAL_BLOCKS {
          OneMoreAddress(ts, was, bytes, o, i, pbas, pba, keep, now);
          var located;
          located, prevIdx, count := Locate(pba / 512, prevMd, prevIdx, touched, count, pbas);
          if !located { return false, touched, count; }
          prevMd := pba / 512;
          LastPrevious(ts, pbas, pba, prevIdx, touched[..count]);
          var stepped := StepOne(prevIdx, pba, log, o);
          if !stepped { return false, touched, count; }
        }
      }
      ok := true;
    }

    /** The second loop of ComputeLogUpdates: each distinct touched slot gets its counter raised
        and is sealed again. */
    method RefreshTouched(touched: array<nat>, count: nat, ghost mds: set<nat>) returns (ok: bool)
      requires Valid() && count <= touched.Length && touched as object != counters && touched != tags
      requires Touches(tags[..], touched[..count], mds) && Bounded(tags[..])
      modifies slots, counters
      ensures ok <==> BelowMax(old(counters[..]), mds)
      ensures ok ==> counters[..] == Bump(old(counters[..]), mds)
      ensures ok ==> Resealed(mac, tags[..], old(Views()), Views(), counters[..], mds)
    {
      hide FindTag, Seal, Resealed, Found, BelowMax, Touches, TagsOf, Bounded, Bump;
      ghost var was, c0, ts := Views(), counters[..], tags[..];
      ghost var list := touched[..count];
      NothingResealed(mac, ts, was, c0);
      NothingTouched(ts, c0);
      assert list[..0] == [];
      var r := 0;
      while r < count
        invariant r <= count && touched[..count] == list && tags[..] == ts
        invariant BelowMax(c0, TagsOf(ts, list[..r]))
        invariant counters[..] == Bump(c0, TagsOf(ts, list[..r]))
        invariant Resealed(mac, ts, was, Views(), counters[..], TagsOf(ts, list[..r]))
      {
        ghost var finished := TagsOf(ts, list[..r]);
        var pos := touched[r];
        assert pos == list[r] && touched[..r] == list[..r];
        var seen := SeenBefore(touched, r, pos);
        NextTouched(ts, list, r, mds, c0);
        if !seen {
          if counters[tags[pos]] == 0xFFFF_FFFF { return false; }
          RefreshOne(pos, was, c0, finished);
        }
        r := r + 1;
      }
      assert list[..r] == list;
      AllFinished(ts, list, mds);
      ok := true;
    }

    method RefreshOne(pos: nat, ghost was: seq<Slot>, ghost c0: seq<u32>, ghost finished: set<nat>)
      requires Valid() && |c0| == MD_BLOCKS && counters[..] == Bump(c0, finished)
      requires pos < 5 && Found(tags[..], pos) && tags[pos] < MD_BLOCKS && tags[pos] !in finished
      requires counters[tags[pos]] < 0xFFFF_FFFF
      requires Resealed(mac, tags[..], was, Views(), counters[..], finished)
      modifies slots[pos], counters
      ensures c0[tags[pos]] < 0xFFFF_FFFF
      ensures counters[..] == Bump(c0, finished + {tags[pos]})
      ensures Resealed(mac, tags[..], was, Views(), counters[..], finished + {tags[pos]})
    {
      hide FindTag, Seal, Resealed, Found, Bump;
      var md := tags[pos];
      ghost var c1 := counters[..];
      BumpAt(c0, finished, md);
      BumpOne(c0, finished, md);
      ResealOne(mac, tags[..], was, Views(), c1, finished, pos, counters[md] + 1);
      counters[md] := counters[md] + 1;
      assert counters[..] == c1[md := c1[md] + 1];
      HashBlock(pos, md, counters[md]);
    }

    method SeenBefore(touched: array<nat>, r: nat, pos: nat) returns (seen: bool)
      requires r <= touched.Length
      ensures seen <==> pos in touched[..r]
    {
      var j := 0;
      while j < r && touched[j] != pos
        invariant j <= r && pos !in touched[..j]
      {
        j := j + 1;
      }
      seen := j < r;
    }

    /** ComputeLogUpdates, on the log block at byte o of the request buffer.  ok is false where
        the original halts. */
    method ComputeLogUpdates(log: array<byte>, o: nat) returns (ok: bool)
      requires Valid() && CanRead(log, o) && Bounded(tags[..])
      modifies slots, counters
      ensures ok <==> LogAccepted(tags[..], old(Views()), old(counters[..]), TxAt(log[..], o))
      ensures ok ==>
        LogApplied(mac, tags[..], old(Views()), old(counters[..]), TxAt(log[..], o), Views(), counters[..])
    {
      hide StepSlots, Switches, Touches, Mds, Bump, Resealed, LogPbas, Word4, FindTag;
      var touched, count;
      ok, touched, count := StepNamed(log, o);
      if ok {
        ok := RefreshTouched(touched, count, Mds(TxAt(log[..], o).pbas));
      }
    }

    /** copy_array of one block */
    method CopyBlock(dst: array<byte>, d: nat, src: array<byte>, s: nat)
      requires dst != src && d + SLOT_BYTES <= dst.Length && s + SLOT_BYTES <= src.Length
      modifies dst
      ensures dst[..] == Patch(old(dst[..]), d, src[s..s + SLOT_BYTES])
    {
      forall k | 0 <= k < SLOT_BYTES { dst[d + k] := src[s + k]; }
    }

    /** cache_insert, after the old content of the slot has been copied to byte at of evictObj. */
    method Insert(e: nat, md: nat, bytes: array<byte>, o: nat, evictObj: array<byte>, at: nat)
      requires Valid() && e < 5 && o + SLOT_BYTES <= bytes.Length && at + SLOT_BYTES <= evictObj.Length
      requires bytes !in slots && evictObj !in slots && bytes != evictObj
      modifies slots[e], tags, evictObj
      ensures tags[..] == old(tags[..])[e := md]
      ensures Views() == old(Views())[e := bytes[o..o + SLOT_BYTES]]
      ensures evictObj[..] == Patch(old(evictObj[..]), at, old(Views())[e])
    {
      ghost var was := Views();
      ViewAt(e);
      CopyBlock(evictObj, at, slots[e], 0);
      assert slots[e][0..SLOT_BYTES] == slots[e][..];
      CopyBlock(slots[e], 0, bytes, o);
      assert slots[e][..] == bytes[o..o + SLOT_BYTES];
      tags[e] := md;
      ViewsUpdated(e);
    }

    /** One block of the request, as TakeBlock says; p is the progress so far. */
    method TakeOne(e: nat, bytes: array<byte>, o: nat, evictObj: array<byte>, at: nat, ghost p: Progress)
      returns (ok: bool, inserted: bool)
      requires Valid() && o + SLOT_BYTES <= bytes.Length && at + SLOT_BYTES <= evictObj.Length
      requires bytes !in slots && evictObj !in slots && bytes != evictObj
      requires p.ok && p.cache == CacheState(tags[..], Views(), e) && e < 5
      modifies slots[e], tags, evictObj
      ensures
        var r := TakeBlock(mac, counters[..], p, bytes[o..o + SLOT_BYTES]);
        && r.ok == ok && r.cache == CacheState(tags[..], Views(), if inserted then (e + 1) % 5 else e)
        && r.evicted == if inserted then p.evicted + [old(Views())[e]] else p.evicted
      ensures !ok ==> !inserted
      ensures evictObj[..] == if inserted then Patch(old(evictObj[..]), at, old(Views())[e]) else old(evictObj[..])
    {
      hide TakeBlock, HashHolds, Word4, FindTag;
      ghost var cs, req := counters[..], bytes[..];
      ghost var b := bytes[o..o + SLOT_BYTES];
      var md, counter := U32(bytes[..], o + 4096), U32(bytes[..], o + 4100);
      WordsOf(req, o);
      if md >= MD_BLOCKS {
        StopsHere(mac, cs, p, b);
        return false, false;
      }
      var i := ScanCache(md);
      if i < 5 {
        SkipsHere(mac, cs, p, b);
        return true, false;
      }
      var digestOk := mac(bytes[o..o + HEAD_BYTES]) == bytes[o + HEAD_BYTES..o + SLOT_BYTES];
      assert bytes[o..o + HEAD_BYTES] == b[..HEAD_BYTES] && bytes[o + HEAD_BYTES..o + SLOT_BYTES] == b[HEAD_BYTES..];
      DigestTest(mac, b);
      if !digestOk || counter != counters[md] {
        StopsHere(mac, cs, p, b);
        return false, false;
      }
      InsertsHere(mac, cs, p, b);
      Insert(e, md, bytes, o, evictObj, at);
      return true, true;
    }

    /** The loop of update_td_metadata_cache. */
    method TakeAll(n: nat, bytes: array<byte>, evictObj: array<byte>) returns (ok: bool, skipped: nat, e: nat)
      requires Valid() && n <= 5 && SLOT_BYTES * n <= bytes.Length && evictObj.Length == REPLY_BYTES
      requires bytes !in slots && evictObj !in slots && bytes != evictObj
      modifies slots, tags, evictObj
      ensures Valid() && skipped <= n
      ensures
        var p := TakeBlocks(mac, counters[..], old(Cache()), BlocksIn(bytes[..], 0, n));
        && p.ok == ok && p.cache == CacheState(tags[..], Views(), e)
        && (ok ==> BlocksIn(evictObj[..], 1, n - skipped) == p.evicted)
    {
      hide TakeBlock, TakeBlocks, HashHolds, Word4, FindTag, BlocksIn, Views, Patch;
      ghost var c, cs, req := Cache(), counters[..], bytes[..];
      var i := 0;
      e, skipped := evictIdx, 0;
      NoBlocks(mac, cs, c, req, evictObj[..]);
      while i < n
        invariant i <= n && skipped <= i && e < 5
        invariant counters[..] == cs && bytes[..] == req
        invariant TakeBlocks(mac, cs, c, BlocksIn(req, 0, i))
          == Progress(CacheState(tags[..], Views(), e), BlocksIn(evictObj[..], 1, i - skipped), true)
      {
        ghost var p, ev, out := TakeBlocks(mac, cs, c, BlocksIn(req, 0, i)), evictObj[..], Views()[e];
        NextBlock(mac, cs, c, req, i, n);
        var inserted;
        ok, inserted := TakeOne(e, bytes, SLOT_BYTES * i, evictObj, 1 + SLOT_BYTES * (i - skipped), p);
        assert counters[..] == cs;
        if !ok { return false, 0, e; }
        OneMoreOut(ev, out, i - skipped);
        i := i + 1;
        if inserted { e := (e + 1) % 5; } else { skipped := skipped + 1; }
      }
      ok := true;
    }

    /** update_td_metadata_cache: the n blocks at the start of the request go into the cache, and
        what they push out is left in evictObj. */
    method UpdateCache(n: nat, bytes: array<byte>, evictObj: array<byte>) returns (ok: bool, skipped: nat)
      requires Valid() && Traced() && n <= 5 && SLOT_BYTES * n <= bytes.Length && evictObj.Length == REPLY_BYTES
      requires bytes !in slots && evictObj !in slots && bytes != evictObj
      modifies this`evictIdx, this`states, this`events, slots, tags, evictObj
      ensures Valid() && ok == TakeBlocks(mac, counters[..], old(Cache()), BlocksIn(bytes[..], 0, n)).ok
      ensures Cache() == Updated(mac, counters[..], old(Cache()), BlocksIn(bytes[..], 0, n))
      ensures skipped <= n
      ensures ok ==>
        var p := TakeBlocks(mac, counters[..], old(Cache()), BlocksIn(bytes[..], 0, n));
        BlocksIn(evictObj[..], 1, n - skipped) == p.evicted
      ensures Traced() && old(states) <= states && events == old(events) + [Batch(BlocksIn(bytes[..], 0, n))]
    {
      hide TakeBlocks, BlocksIn, Views, Trace, OnTheDisk, Shows, Step;
      ghost var s, blocks := states[|events|], BlocksIn(bytes[..], 0, n);
      ShownAfterBatch(mac, s, Cache(), counters[..], blocks);
      var e;
      ok, skipped, e := TakeAll(n, bytes, evictObj);
      label Done:
      if ok { evictIdx := e; }
      SameViews@Done();
      Record(Batch(blocks), s.(cache := Cache()));
    }

    /** The free test of one address that starts a metadata block of the range. */
    method TestFree(pba: nat, time: array<byte>, ghost entries: seq<Entry>) returns (status: Status)
      requires Valid() && Traced() && pba < TOTAL_BLOCKS && time.Length == 4 && Agrees(entries, tags[..], Views())
      modifies this`states, this`events
      ensures Valid() && Traced() && old(states) <= states
      ensures
        if pba / 512 !in tags[..] then status == Halted && events == old(events)
        else
          var free := IsFree(entries[pba], U32(time[..], 0));
          status == (if free then Passed else Denied) && events == old(events) + [Tested(pba, U32(time[..], 0), free)]
    {
      hide Word4, FreeBytes, IsFree, EntryAt, Trace, OnTheDisk, Shows, Step, FindTag;
      var i := ScanCache(pba / 512);
      if i == 5 { return Halted; }
      ViewAt(i);
      assert entries[pba] == CachedEntry(tags[..], Views(), pba);
      FreeBytesIsFree(slots[i][..], 8 * (pba % 512), time[..], 0);
      status := if FreeBytes(slots[i][..], 8 * (pba % 512), time[..], 0) then Passed else Denied;
      ShownIsTested(mac, states[|events|], Cache(), counters[..], pba, U32(time[..], 0));
      Record(Tested(pba, U32(time[..], 0), status == Passed), states[|events|]);
    }

    /** ComputeLogUpdates, with its place in the history. */
    method ExecuteBlock(bytes: array<byte>, o: nat) returns (ok: bool)
      requires Valid() && Traced() && CanRead(bytes, o)
      modifies this`states, this`events, slots, counters
      ensures Valid() && old(states) <= states && (!ok ==> states == old(states) && events == old(events))
      ensures ok <==> LogAccepted(tags[..], old(Views()), old(counters[..]), TxAt(bytes[..], o))
      ensures ok ==>
        LogApplied(mac, tags[..], old(Views()), old(counters[..]), TxAt(bytes[..], o), Views(), counters[..])
      ensures ok ==> Traced() && events == old(events) + [Logged(TxAt(bytes[..], o))]
    {
      hide Word4, LogAccepted, LogApplied, LogPbas, Views, Trace, OnTheDisk, Shows, Step, AfterLog;
      ghost var was, c0, s := Views(), counters[..], states[|events|];
      ShownIsBounded(s, Cache(), c0);
      PbasInRange(bytes[..], o);
      ok := ComputeLogUpdates(bytes, o);
      if ok {
        ghost var tx := TxAt(bytes[..], o);
        ShownAfterLog(mac, s, CacheState(tags[..], was, evictIdx), c0, tx, Views(), counters[..]);
        Record(Logged(tx), AfterLog(s, tx, Views(), counters[..]));
      }
    }

    /** The log-block branch: the tail moves to the pointer and the addresses are executed. */
    method TakeLogBlock(pba: nat, bytes: array<byte>, o: nat, ghost l: Log) returns (ok: bool)
      requires Valid() && Traced() && CanRead(bytes, o) && pba == logTail == l.tail
      requires Agrees(l.entries, tags[..], Views())
      modifies this`logTail, this`states, this`events, slots, counters
      ensures Valid() && old(states) <= states && (!ok ==> states == old(states) && events == old(events))
      ensures ok <==>
        var b := bytes[o..o + 4096];
        Pointer(b) < TOTAL_BLOCKS && LogAccepted(tags[..], old(Views()), old(counters[..]), Tx(b))
      ensures ok ==>
        var r := CheckBlock(l, pba, bytes[o..o + 4096]);
        logTail == r.tail && r.tail < TOTAL_BLOCKS && Agrees(r.entries, tags[..], Views())
      ensures ok ==> Traced() && events == old(events) + [Logged(Tx(bytes[o..o + 4096]))]
    {
      hide Word4, Agrees, LogAccepted, LogApplied, ExecuteTx, LogPbas, Views, Trace, OnTheDisk, Shows, Step;
      ghost var was, c0 := Views(), counters[..];
      TxOfSlice(bytes[..], o);
      PbasInRange(bytes[..], o);
      var next := PointerNext(bytes[..], o);
      if next >= TOTAL_BLOCKS { return false; }
      label Checked:
      logTail := next;
      SameViews@Checked();
      ok := ExecuteBlock(bytes, o);
      if ok {
        ghost var tx := TxAt(bytes[..], o);
        LogUpdatesRefineExecute(mac, l.entries, tags[..], was, c0, tx, Views(), counters[..]);
      }
    }

    /** One block of a range: the test if it is the first of its metadata block, then the log-block
        branch if it lies at the tail. */
    method CheckBlockOf(pba: nat, i: nat, first: bool, now: u32, bytes: array<byte>, o: nat, time: array<byte>,
                        ghost l: Log) returns (status: Status)
      requires Valid() && Traced() && CanRead(bytes, o) && bytes != time && logTail == l.tail
      requires Agrees(l.entries, tags[..], Views()) && pba + i < TOTAL_BLOCKS && first == FirstOfMd(pba, i)
      requires time.Length == 4 && U32(time[..], 0) == now
      modifies this`logTail, this`states, this`events, slots, counters
      ensures Valid() && status != Rejected && |l.entries| == TOTAL_BLOCKS
      ensures status == Passed ==>
        var r := CheckBlock(l, pba + i, bytes[o..o + 4096]);
        && logTail == r.tail && Agrees(r.entries, tags[..], Views())
        && (FirstOfMd(pba, i) ==> IsFree(l.entries[pba + i], now))
        && events == old(events) + TestEvent(pba, i, now, true) + LogEvent(l.tail, pba + i, bytes[o..o + 4096])
      ensures status == Denied ==>
        && logTail == l.tail && Agrees(l.entries, tags[..], Views())
        && FirstOfMd(pba, i) && !IsFree(l.entries[pba + i], now)
      ensures old(states) <= states && History()
      ensures status != Passed ==> events == old(events) + Ending(status, states[|events|], pba, i, now)
      ensures status == Halted ==> Stuck(states[|events|], l.tail, pba, i, bytes[o..o + 4096])
      ensures status != Halted ==> Traced()
    {
      hide Word4, Agrees, FindTag, IsFree, CheckBlock, Views, FirstOfMd, LogAccepted, Step, Trace, OnTheDisk, Shows;
      ghost var es := events;
      AgreesLength(l.entries, tags[..], Views());
      assert es + [] == es;
      if first {
        status := TestFree(pba + i, time, l.entries);
        ShownIsMemory(states[|events|], Cache(), counters[..]);
        if status != Passed { return status; }
      }
      ghost var es' := events;
      assert es' + [] == es';
      ShownIsMemory(states[|events|], Cache(), counters[..]);
      if pba + i == logTail {
        var ok := TakeLogBlock(pba + i, bytes, o, l);
        if !ok { return Halted; }
      } else {
        NotALogBlock(l, pba + i, bytes[o..o + 4096]);
      }
      status := Passed;
    }

    /** ensure_blocks_free.  Passed means that the first block of each metadata block in the range
        was free when its turn came, and that the log blocks of the range have been executed in
        order; Denied that block k was tested and not free, with the log blocks before it already
        executed; Halted that block k cannot be tested or its log block cannot be executed. */
    method EnsureBlocksFree(pba: nat, n: nat, now: u32, bytes: array<byte>, o: nat, time: array<byte>,
                            ghost l: Log) returns (status: Status, ghost k: nat)
      requires Valid() && Traced() && logTail == l.tail && Agrees(l.entries, tags[..], Views())
      requires bytes !in slots && time !in slots && bytes != time && time.Length == 4
      requires o + 4096 * n <= bytes.Length && pba + n <= TOTAL_BLOCKS
      modifies this`logTail, this`states, this`events, slots, counters, time
      ensures Valid() && k <= n && (status == Passed <==> k == n) && status != Rejected
      ensures status != Halted ==>
        var l' := CheckRange(l, pba, BlocksOf(bytes[..], o, k));
        logTail == l'.tail && Agrees(l'.entries, tags[..], Views()) && Traced()
      ensures FirstsFree(l, pba, BlocksOf(bytes[..], o, k), now)
      ensures status == Denied ==> FirstOfMd(pba, k)
      ensures status == Denied ==> !FreeInTurn(l, pba, BlocksOf(bytes[..], o, k), now)
      ensures old(states) <= states && History()
      ensures events == old(events) + RangeEvents(l.tail, pba, BlocksOf(bytes[..], o, k), now)
        + Ending(status, states[|events|], pba, k, now)
      ensures status == Halted ==>
        Stuck(states[|events|], TailAfter(l.tail, pba, BlocksOf(bytes[..], o, k)), pba, k,
              bytes[..][o + 4096 * k..o + 4096 * k + 4096])
    {
      hide Word4, Agrees, FindTag, Bytes32, IsFree, CheckRange, CheckBlock, BlocksOf, FirstsFree, Views, FirstOfMd;
      hide LogAccepted, Step, Trace, OnTheDisk, Shows, RangeEvents, TailAfter, FreeInTurn, TestEvent, LogEvent;
      hide Ending, Stuck;
      ghost var req, ts := bytes[..], tags[..];
      ghost var ss0, es0 := states, events;
      var t := Bytes32(now);
      forall i | 0 <= i < 4 { time[i] := t[i]; }
      assert time[..] == t;
      WordRoundTrip(now);
      AgreesLength(l.entries, ts, Views());
      NoBlocksYet(l, pba, req, o, now);
      NoEventsYet(l.tail, pba, req, o, now);
      k, status := 0, Passed;
      var i, prevMd := 0, 0xFFFF_FFFF;
      while i < n
        invariant i <= n && k == i && status == Passed && Valid() && Traced()
        invariant tags[..] == ts && bytes[..] == req && U32(time[..], 0) == now
        invariant logTail == CheckRange(l, pba, BlocksOf(req, o, i)).tail
        invariant Agrees(CheckRange(l, pba, BlocksOf(req, o, i)).entries, ts, Views())
        invariant FirstsFree(l, pba, BlocksOf(req, o, i), now)
        invariant prevMd == if i == 0 then 0xFFFF_FFFF else (pba + i - 1) / 512
        invariant ss0 <= states && events == es0 + RangeEvents(l.tail, pba, BlocksOf(req, o, i), now)
      {
        ghost var before := BlocksOf(req, o, i);
        OneMoreEvents(l.tail, pba, req, o, i, now);
        ghost var l1 := CheckRange(l, pba, before);
        StartsMd(pba, i);
        AgreesLength(l1.entries, ts, Views());
        InTurn(l, pba, before, now);
        TailIsTail(l, pba, before);
        status := CheckBlockOf(pba, i, prevMd != (pba + i) / 512, now, bytes, o + 4096 * i, time, l1);
        if status != Passed { return status, k; }
        prevMd := (pba + i) / 512;
        OneMoreOfRange(l, pba, req, o, i, now);
        i := i + 1;
        k := i;
      }
      PassedEndsThere(states[|events|], pba, k, now);
    }

    /** handle_write: range by range, first the checks with their log blocks, then the write.  k
        counts the ranges that reached the disk; when a later one is cut short at its block j they
        stay written, and so does what the checks before j have done to tail and entries. */
    method HandleWrite(ranges: seq<DataRange>, start: nat, now: u32, bytes: array<byte>, time: array<byte>,
                       ghost l: Log) returns (status: Status, ghost k: nat, ghost j: nat)
      requires Valid() && Traced() && logTail == l.tail && Agrees(l.entries, tags[..], Views())
      requires |disk| == TOTAL_BLOCKS
      requires bytes !in slots && time !in slots && bytes != time && time.Length == 4 && start <= bytes.Length
      modifies this`logTail, this`disk, this`states, this`events, slots, counters, time
      ensures Valid() && k <= |ranges| && (status == Passed <==> k == |ranges|) && status != Rejected
      ensures OffsetAt(start, ranges, k) <= bytes.Length && Fit(RangesIn(bytes[..], start, ranges, k))
      ensures |disk| == TOTAL_BLOCKS && disk == RunDisk(old(disk), RangesIn(bytes[..], start, ranges, k))
      ensures PassedFree(l, bytes[..], start, ranges, k, now)
      ensures status == Passed ==>
        var l' := RunLog(l, RangesIn(bytes[..], start, ranges, k));
        logTail == l'.tail && Agrees(l'.entries, tags[..], Views())
      ensures old(states) <= states && History()
      ensures status != Halted ==> Traced()
      ensures k < |ranges| && HasRoom(ranges[k], OffsetAt(start, ranges, k), bytes.Length) ==>
        && CutShort(status, states[|events|], RunLog(l, RangesIn(bytes[..], start, ranges, k)), ranges[k].pba,
                    BlocksOf(bytes[..], OffsetAt(start, ranges, k), ranges[k].num), j, now)
        && (status == Denied ==>
             var l' := CheckRange(RunLog(l, RangesIn(bytes[..], start, ranges, k)), ranges[k].pba,
                                  BlocksOf(bytes[..], OffsetAt(start, ranges, k), ranges[k].num)[..j]);
             logTail == l'.tail && Agrees(l'.entries, tags[..], Views()))
      ensures k < |ranges| && !HasRoom(ranges[k], OffsetAt(start, ranges, k), bytes.Length) ==> status == Halted
      ensures events == old(events) + RequestEvents(l.tail, RangesIn(bytes[..], start, ranges, k), now)
        + LastEvents(status, states[|events|], l.tail, bytes[..], start, ranges, k, j, now)
    {
      hide Agrees, Views, RangesIn, Fit, RunDisk, RunLog, CheckRange, OffsetAt, BlocksOf, WriteRange;
      hide PassedFree, FirstsFree, FreeInTurn, CutShort, CutEvents, Ending, Stuck, RequestEvents, RangeEvents;
      hide Trace, OnTheDisk, Step, Shows, TailAfterAll, TailAfter;
      ghost var d0, req, ts, ss0, es0 := disk, bytes[..], tags[..], states, events;
      NoRanges(req, start, ranges, disk, l, now);
      var offset := start;
      k, j, status := 0, 0, Passed;
      var i := 0;
      while i < |ranges|
        invariant i <= |ranges| && k == i && Valid() && Traced() && tags[..] == ts && bytes[..] == req
        invariant status == Passed && offset == OffsetAt(start, ranges, i) <= bytes.Length && |disk| == TOTAL_BLOCKS
        invariant Fit(RangesIn(req, start, ranges, i)) && disk == RunDisk(d0, RangesIn(req, start, ranges, i))
        invariant logTail == RunLog(l, RangesIn(req, start, ranges, i)).tail
        invariant Agrees(RunLog(l, RangesIn(req, start, ranges, i)).entries, ts, Views())
        invariant PassedFree(l, req, start, ranges, i, now)
        invariant ss0 <= states && events == es0 + RequestEvents(l.tail, RangesIn(req, start, ranges, i), now)
      {
        var r := ranges[i];
        if !HasRoom(r, offset, bytes.Length) { return Halted, k, j; }
        ghost var l1 := RunLog(l, RangesIn(req, start, ranges, i));
        AgreesLength(l1.entries, ts, Views());
        status, j := EnsureBlocksFree(r.pba, r.num, now, bytes, offset, time, l1);
        if status != Passed {
          RangeCut(status, states[|events|], l1, r.pba, req, offset, r.num, j, now);
          RequestCommitsItsLog(l, RangesIn(req, start, ranges, i), now);
          return status, k, j;
        }
        PassedEndsThere(states[|events|], r.pba, j, now);
        NextRange(req, start, ranges, i, d0, l, now);
        var blocks := BlocksOf(bytes[..], offset, r.num);
        label Checked:
        disk := WriteRange(disk, r.pba, blocks);
        SameViews@Checked();
        offset := offset + 4096 * r.num;
        i := i + 1;
        k := i;
      }
    }

    /** handle_write as the request loop calls it, whatever the cached entries are. */
    method ServeRanges(ranges: seq<DataRange>, start: nat, now: u32, bytes: array<byte>, time: array<byte>)
      returns (status: Status, ghost k: nat, ghost j: nat)
      requires Valid() && Traced() && |disk| == TOTAL_BLOCKS && start <= bytes.Length
      requires bytes !in slots && time !in slots && bytes != time && time.Length == 4
      modifies this`logTail, this`disk, this`states, this`events, slots, counters, time
      ensures Valid() && old(states) <= states && History()
      ensures status != Halted ==> Traced()
      ensures Served(status, states[|events|], Outside(old(logTail), old(disk)), Outside(logTail, disk),
                     bytes[..], start, ranges, k, j, now, old(events), events)
    {
      hide Views, Trace, OnTheDisk, Shows, RangesIn, Fit, RunDisk, RunLog, OffsetAt, RequestEvents, LastEvents;
      hide CutShort, PassedFree, TailAfterAll, Agrees, WithCache, HasRoom, BlocksOf, CheckRange;
      ghost var any := seq(TOTAL_BLOCKS, i => Entry(0, 0));
      WithCacheAgrees(any, tags[..], Views());
      ghost var l := Log(logTail, [], WithCache(any, tags[..], Views()));
      status, k, j := HandleWrite(ranges, start, now, bytes, time, l);
      RequestCommitsItsLog(l, RangesIn(bytes[..], start, ranges, k), now);
      if k < |ranges| && HasRoom(ranges[k], OffsetAt(start, ranges, k), bytes.Length) {
        CutEndsAt(status, states[|events|], RunLog(l, RangesIn(bytes[..], start, ranges, k)), logTail, bytes[..],
                  ranges[k], OffsetAt(start, ranges, k), j, now);
      }
    }

    /** The batch of a write, with the number of evicted blocks in front of the reply. */
    method TakeBatch(n: nat, bytes: array<byte>, evictObj: array<byte>) returns (ok: bool)
      requires Valid() && Traced() && n <= 5 && SLOT_BYTES * n <= bytes.Length && evictObj.Length == REPLY_BYTES
      requires bytes !in slots && evictObj !in slots && bytes != evictObj
      modifies this`evictIdx, this`states, this`events, slots, tags, evictObj
      ensures Valid() && Traced() && old(states) <= states && events == old(events) + [Batch(BlocksIn(bytes[..], 0, n))]
      ensures
        var p := TakeBlocks(mac, counters[..], old(Cache()), BlocksIn(bytes[..], 0, n));
        && ok == p.ok
        && (ok ==>
             && evictObj[0] as nat == |p.evicted| <= 5
             && BlocksIn(evictObj[..], 1, |p.evicted|) == p.evicted)
    {
      hide TakeBlocks, BlocksIn, Views, Trace, OnTheDisk, Shows, Step;
      var skipped;
      ok, skipped := UpdateCache(n, bytes, evictObj);
      ghost var reply := evictObj[..];
      label Inserted:
      evictObj[0] := (n - skipped) as byte;
      SameViews@Inserted();
      SameReply(reply, evictObj[..], n - skipped);
    }

    /** The Write case of the request loop: the header is checked, the metadata blocks go into the
        cache, then the ranges are handled.  Rejected is the freshness reply, which leaves disk and
        tail alone; otherwise the session goes on with the events of the request. */
    method ServeWrite(ranges: seq<DataRange>, n: nat, payload: nat, now: u32, bytes: array<byte>,
                      evictObj: array<byte>, time: array<byte>)
      returns (status: Status, ghost k: nat, ghost j: nat)
      requires Valid() && Traced() && |disk| == TOTAL_BLOCKS
      requires bytes.Length == BUFFER_BYTES && evictObj.Length == REPLY_BYTES
      requires bytes !in slots && evictObj !in slots && time !in slots && time.Length == 4
      requires bytes != evictObj && bytes != time && evictObj != time
      modifies this`logTail, this`disk, this`states, this`events, this`evictIdx, slots, tags, counters, time, evictObj
      ensures Valid() && old(states) <= states && History()
      ensures status != Halted ==> Traced()
      ensures !WellFormed(ranges, n, payload) ==> status == Halted && events == old(events)
      ensures WellFormed(ranges, n, payload) ==>
        var batch := BlocksIn(bytes[..], 0, n);
        var p := TakeBlocks(mac, old(counters[..]), old(Cache()), batch);
        && (status == Rejected <==> !p.ok)
        && (!p.ok ==> events == old(events) + [Batch(batch)] && disk == old(disk) && logTail == old(logTail))
        && (p.ok ==>
             Served(status, states[|events|], Outside(old(logTail), old(disk)), Outside(logTail, disk),
                    bytes[..], SLOT_BYTES * n, ranges, k, j, now, old(events) + [Batch(batch)], events))
        && (status == Passed ==>
             && evictObj[0] as nat == |p.evicted| <= 5
             && BlocksIn(evictObj[..], 1, |p.evicted|) == p.evicted)
    {
      hide TakeBlocks, BlocksIn, Views, Trace, OnTheDisk, Shows, Step, WellFormed, Served;
      k, j := 0, 0;
      var fits := CheckHeader(ranges, n, payload);
      if !fits { return Halted, k, j; }
      var ok := TakeBatch(n, bytes, evictObj);
      if !ok { return Rejected, k, j; }
      status, k, j := ServeRanges(ranges, SLOT_BYTES * n, now, bytes, time);
      ghost var before := old(events) + [Batch(BlocksIn(bytes[..], 0, n))];
      ServedIsNoReject(status, states[|events|], Outside(old(logTail), old(disk)), Outside(logTail, disk),
                       bytes[..], SLOT_BYTES * n, ranges, k, j, now, before, events);
    }

    /** One step of the replay: the needed blocks are asked for and let in, then the log block is
        executed. */
    method ReplayBlock(b: Block, answers: Answers, k: nat, bytes: array<byte>, evictObj: array<byte>, log: array<byte>)
      returns (halt: Option<Halt>)
      requires Valid() && Traced()
      requires bytes.Length == BUFFER_BYTES && evictObj.Length == REPLY_BYTES && log.Length == BUFFER_BYTES
      requires bytes !in slots && evictObj !in slots && log !in slots && bytes != evictObj
      modifies this`evictIdx, this`states, this`events, slots, tags, counters, bytes, evictObj, log
      ensures Valid() && old(states) <= states && History() && (halt.None? ==> Traced())
      ensures Whole(old(states[|events|]))
      ensures halt == Outcome(mac, old(states[|events|]), b, AnswerTo(answers, k, b))
      ensures events == old(events) + StepEvents(b, AnswerTo(answers, k, b), halt)
    {
      hide Word4, LogAccepted, LogApplied, LogPbas, Views, Trace, OnTheDisk, Shows, Step, Needed, TakeBlocks, BlocksIn;
      ghost var s := states[|events|];
      ShownIsWhole(s, Cache(), counters[..]);
      assert events + [] == events;
      var ok, needed, n := NeededMds(b);
      if !ok { return Some(TooManyBlocks); }
      var sent := answers(k, needed[..n]);
      if |sent| != SLOT_BYTES * n { return Some(NoAnswer); }
      label Asked:
      forall i | 0 <= i < |sent| { bytes[i] := sent[i]; }
      SameViews@Asked();
      SameBlocks(sent, bytes[..], 0, n);
      assert AnswerBlocks(sent) == BlocksIn(bytes[..], 0, n) && Cache() == s.cache;
      var skipped;
      ok, skipped := UpdateCache(n, bytes, evictObj);
      assert sent == AnswerTo(answers, k, b);
      ghost var p := TakeBlocks(mac, s.counters, s.cache, AnswerBlocks(sent));
      assert counters[..] == s.counters && ok == p.ok;
      if !ok { return Some(BadAnswer); }
      assert Cache() == Updated(mac, s.counters, s.cache, AnswerBlocks(sent)) == p.cache;
      label Updated:
      forall i | 0 <= i < 4096 { log[i] := b[i]; }
      SameViews@Updated();
      assert log[..][0..4096] == b;
      TxOfSlice(log[..], 0);
      assert Tx(b) == TxAt(log[..], 0) && counters[..] == s.counters;
      ok := ExecuteBlock(log, 0);
      assert ok <==> LogAccepted(p.cache.tags, p.cache.slots, s.counters, Tx(b));
      halt := if ok then None else Some(CannotExecute);
    }

    /** The recovery loop of handle_init.  It ends on any disk and whatever the driver answers, and
        visits no block twice; the session goes on with a batch and a log block for each block
        visited.  It stops at the tail, at a block seen before or off the disk, or halts where
        Outcome says so. */
    method ReplayChain(head: nat, tail: nat, answers: Answers, bytes: array<byte>, evictObj: array<byte>,
                       log: array<byte>)
      returns (halt: Option<Halt>, visited: seq<nat>, curr: nat)
      requires Valid() && Traced() && |disk| == TOTAL_BLOCKS && head < TOTAL_BLOCKS
      requires bytes.Length == BUFFER_BYTES && evictObj.Length == REPLY_BYTES && log.Length == BUFFER_BYTES
      requires bytes !in slots && evictObj !in slots && log !in slots && bytes != evictObj
      modifies this`evictIdx, this`states, this`events, slots, tags, counters, bytes, evictObj, log
      ensures Valid() && old(states) <= states && History() && (halt.None? ==> Traced())
      ensures Replayed(mac, states, |old(events)|, disk, head, tail, answers, halt, visited, curr)
      ensures events == old(events) + ReplayEvents(disk, answers, halt, visited, curr)
    {
      hide Pointer, Trace, OnTheDisk, Shows, Walked, Outcome, StepEvents, AnswerTo, VisitedEvents, Views;
      ghost var es0, ss0 := events, states;
      assert es0 + [] == es0;
      var seen := new bool[TOTAL_BLOCKS](_ => false);
      halt, visited, curr := None, [], head;
      StartOfWalk(disk, head, tail);
      NoVisits(disk, answers);
      var steps := 0;
      while steps < TOTAL_BLOCKS
        invariant steps == |visited| <= TOTAL_BLOCKS && halt == None && Valid() && Traced()
        invariant Walked(disk, head, tail, visited, curr) && curr < TOTAL_BLOCKS && InBounds(visited)
        invariant forall x :: 0 <= x < TOTAL_BLOCKS ==> (seen[x] <==> x in visited)
        invariant ss0 <= states && events == es0 + VisitedEvents(disk, visited, answers)
      {
        assert events + [] == events;
        if curr == tail || seen[curr] { return; }
        seen[curr] := true;
        assert |states| == |events| + 1;
        halt := ReplayBlock(disk[curr], answers, |visited|, bytes, evictObj, log);
        if halt.Some? { return; }
        VisitMore(disk, visited, answers, curr);
        WalkMore(disk, head, tail, visited, curr);
        visited, curr := visited + [curr], Pointer(disk[curr]);
        assert events + [] == events;
        if curr >= TOTAL_BLOCKS { return; }
        steps := steps + 1;
      }
      WalkIsDistinct(disk, head, tail, visited, curr);
      AllSeen(visited, curr);
    }

    /** handle_init: the initial blocks are hashed and sent, and in recovery the chain is replayed: it
        goes as far as Replayed says, and the session goes on with the events of that. */
    method HandleInit(recovering: bool, head: nat, answers: Answers, bytes: array<byte>, evictObj: array<byte>,
                      log: array<byte>)
      returns (sent: seq<Slot>, halt: Option<Halt>, visited: seq<nat>, curr: nat)
      requires Valid() && Traced() && |disk| == TOTAL_BLOCKS && head < TOTAL_BLOCKS
      requires bytes.Length == BUFFER_BYTES && evictObj.Length == REPLY_BYTES && log.Length == BUFFER_BYTES
      requires bytes !in slots && evictObj !in slots && log !in slots && bytes != evictObj
      modifies this`evictIdx, this`states, this`events, slots, tags, counters, bytes, evictObj, log
      ensures Valid() && old(states) <= states && History() && (halt.None? ==> Traced())
      ensures |sent| == MD_BLOCKS
      ensures forall md :: 0 <= md < MD_BLOCKS ==> sent[md] == InitBlock(mac, md, old(counters[md]))
      ensures !recovering ==> halt == None && visited == [] && events == old(events) + [Init]
      ensures recovering ==>
        && Replayed(mac, states, |old(events)| + 1, disk, head, logTail, answers, halt, visited, curr)
        && events == old(events) + [Init] + ReplayEvents(disk, answers, halt, visited, curr)
    {
      hide Trace, OnTheDisk, Shows, Walked, Outcome, StepEvents, VisitedEvents, Views, InitBlock, Stops;
      hide ReplayEvents;
      sent := InitCounters();
      halt, visited, curr := None, [], head;
      if recovering {
        halt, visited, curr := ReplayChain(head, logTail, answers, bytes, evictObj, log);
      }
    }

    /** The two loops over the ranges before anything else is done. */
    static method CheckHeader(ranges: seq<DataRange>, n: nat, payload: nat) returns (ok: bool)
      ensures ok <==> WellFormed(ranges, n, payload)
      ensures ok ==> n <= 5
    {
      if n > 5 || |ranges| == 0 || |ranges| > 66 { return false; }
      var total, i := 0, 0;
      while i < |ranges|
        invariant i <= |ranges| && total == TotalBlocks(ranges[..i]) <= 66
      {
        TotalGrows(ranges, i);
        if total + ranges[i].num > 66 { return false; }
        total := total + ranges[i].num;
        i := i + 1;
      }
      assert ranges[..i] == ranges;
      ok := payload == SLOT_BYTES * n + 4096 * total;
    }
  }

  lemma WordsOf(bytes: seq<byte>, o: nat)
    requires o + SLOT_BYTES <= |bytes|
    ensures
      var b := bytes[o..o + SLOT_BYTES];
      MdOf(b) == U32(bytes, o + 4096) && CounterOf(b) == U32(bytes, o + 4100)
  {
    hide Word4;
  }

  lemma DigestTest(mac: Mac, b: Slot)
    ensures HashHolds(mac, b) <==> mac(b[..HEAD_BYTES]) == b[HEAD_BYTES..]
  {
  }

  lemma NoBlocks(mac: Mac, counters: seq<u32>, c: CacheState, bytes: seq<byte>, out: seq<byte>)
    requires |c.tags| == |c.slots| == 5 && c.evict < 5 && |counters| == MD_BLOCKS && |out| > 0
    ensures TakeBlocks(mac, counters, c, BlocksIn(bytes, 0, 0)) == Progress(c, BlocksIn(out, 1, 0), true)
  {
  }

  /** One more block of the batch; a batch that has stopped stays stopped. */
  lemma NextBlock(mac: Mac, counters: seq<u32>, c: CacheState, bytes: seq<byte>, i: nat, n: nat)
    requires |c.tags| == |c.slots| == 5 && c.evict < 5 && |counters| == MD_BLOCKS
    requires i < n && SLOT_BYTES * n <= |bytes|
    ensures TakeBlocks(mac, counters, c, BlocksIn(bytes, 0, i + 1))
      == TakeBlock(mac, counters, TakeBlocks(mac, counters, c, BlocksIn(bytes, 0, i)),
                   bytes[SLOT_BYTES * i..SLOT_BYTES * (i + 1)])
    ensures !TakeBlocks(mac, counters, c, BlocksIn(bytes, 0, i + 1)).ok ==>
      TakeBlocks(mac, counters, c, BlocksIn(bytes, 0, n)) == TakeBlocks(mac, counters, c, BlocksIn(bytes, 0, i + 1))
    decreases n
  {
    hide TakeBlock, TakeBlocks, BlocksIn;
    OneMoreBlock(mac, counters, c, bytes, i);
    if i + 1 < n {
      OneMoreBlock(mac, counters, c, bytes, n - 1);
      NextBlock(mac, counters, c, bytes, i, n - 1);
      var p := TakeBlocks(mac, counters, c, BlocksIn(bytes, 0, n - 1));
      if !p.ok { StaysStopped(mac, counters, p, bytes[SLOT_BYTES * (n - 1)..SLOT_BYTES * n]); }
    }
  }

  lemma StaysStopped(mac: Mac, counters: seq<u32>, p: Progress, b: Slot)
    requires |p.cache.tags| == |p.cache.slots| == 5 && p.cache.evict < 5 && |counters| == MD_BLOCKS && !p.ok
    ensures TakeBlock(mac, counters, p, b) == p
  {
  }

  lemma OneMoreBlock(mac: Mac, counters: seq<u32>, c: CacheState, bytes: seq<byte>, i: nat)
    requires |c.tags| == |c.slots| == 5 && c.evict < 5 && |counters| == MD_BLOCKS
    requires SLOT_BYTES * (i + 1) <= |bytes|
    ensures TakeBlocks(mac, counters, c, BlocksIn(bytes, 0, i + 1))
      == TakeBlock(mac, counters, TakeBlocks(mac, counters, c, BlocksIn(bytes, 0, i)),
                   bytes[SLOT_BYTES * i..SLOT_BYTES * (i + 1)])
  {
    hide TakeBlock;
    var blocks := BlocksIn(bytes, 0, i + 1);
    assert blocks[..|blocks| - 1] == BlocksIn(bytes, 0, i);
    assert blocks[|blocks| - 1] == bytes[SLOT_BYTES * i..SLOT_BYTES * (i + 1)];
  }

  lemma StopsHere(mac: Mac, counters: seq<u32>, p: Progress, b: Slot)
    requires |p.cache.tags| == |p.cache.slots| == 5 && p.cache.evict < 5 && |counters| == MD_BLOCKS && p.ok
    requires MdOf(b) >= MD_BLOCKS || (MdOf(b) !in p.cache.tags && !Acceptable(mac, counters, b))
    ensures TakeBlock(mac, counters, p, b) == p.(ok := false)
  {
    hide MdOf, CounterOf, HashHolds;
  }

  lemma SkipsHere(mac: Mac, counters: seq<u32>, p: Progress, b: Slot)
    requires |p.cache.tags| == |p.cache.slots| == 5 && p.cache.evict < 5 && |counters| == MD_BLOCKS && p.ok
    requires MdOf(b) < MD_BLOCKS && MdOf(b) in p.cache.tags
    ensures TakeBlock(mac, counters, p, b) == p
  {
    hide MdOf, CounterOf, HashHolds;
  }

  lemma InsertsHere(mac: Mac, counters: seq<u32>, p: Progress, b: Slot)
    requires |p.cache.tags| == |p.cache.slots| == 5 && p.cache.evict < 5 && |counters| == MD_BLOCKS && p.ok
    requires MdOf(b) < MD_BLOCKS && MdOf(b) !in p.cache.tags && Acceptable(mac, counters, b)
    ensures
      var c := p.cache;
      TakeBlock(mac, counters, p, b) ==
        Progress(CacheState(c.tags[c.evict := MdOf(b)], c.slots[c.evict := b], (c.evict + 1) % 5),
                 p.evicted + [c.slots[c.evict]], true)
  {
    hide MdOf, CounterOf, HashHolds;
  }

  lemma {:induction false} SameBlocks(s: seq<byte>, t: seq<byte>, o: nat, n: nat)
    requires o + SLOT_BYTES * n <= |s| && o + SLOT_BYTES * n <= |t|
    requires forall k :: o <= k < o + SLOT_BYTES * n ==> s[k] == t[k]
    ensures BlocksIn(s, o, n) == BlocksIn(t, o, n)
  {
    if n > 0 {
      SameBlocks(s, t, o, n - 1);
      assert s[o + SLOT_BYTES * (n - 1)..o + SLOT_BYTES * n] == t[o + SLOT_BYTES * (n - 1)..o + SLOT_BYTES * n];
    }
  }

  /** Writing the count in front leaves the blocks of the reply alone. */
  lemma SameReply(s: seq<byte>, t: seq<byte>, m: nat)
    requires |s| == |t| && |s| > 0 && s[1..] == t[1..] && 1 + SLOT_BYTES * m <= |s|
    ensures BlocksIn(s, 1, m) == BlocksIn(t, 1, m)
  {
    forall k | 1 <= k < |s|
      ensures s[k] == t[k]
    {
      assert s[1..][k - 1] == t[1..][k - 1];
    }
    SameBlocks(s, t, 1, m);
  }

  lemma OneMoreOut(ev: seq<byte>, out: Slot, j: nat)
    requires 1 + SLOT_BYTES * (j + 1) <= |ev|
    ensures BlocksIn(Patch(ev, 1 + SLOT_BYTES * j, out), 1, j + 1) == BlocksIn(ev, 1, j) + [out]
  {
    var more := Patch(ev, 1 + SLOT_BYTES * j, out);
    SameBlocks(ev, more, 1, j);
    assert more[1 + SLOT_BYTES * j..1 + SLOT_BYTES * (j + 1)] == out;
  }

  /** The session's memory is this. */
  ghost predicate Shows(s: Session, c: CacheState, counters: seq<u32>) {
    Whole(s) && s.cache == c && s.counters == counters
  }

  lemma StartIsTraced(mac: Mac, c: CacheState, counters: seq<u32>, archive: set<seq<byte>>)
    requires Shaped(c) && |counters| == MD_BLOCKS
    ensures
      var s := Session(c, counters, {}, seq(MD_BLOCKS, i => []), archive);
      Trace(mac, [s], []) && Shows(s, c, counters)
  {
  }

  lemma ShownAfterInit(s: Session, c: CacheState, counters: seq<u32>)
    requires Shows(s, c, counters)
    ensures |s.counters| == MD_BLOCKS && Shows(AfterInit(s), c.(evict := 0), counters)
  {
  }

  lemma ShownIsWhole(s: Session, c: CacheState, counters: seq<u32>)
    requires Shows(s, c, counters)
    ensures Whole(s) && s.cache == c && s.counters == counters
  {
  }

  lemma ShownIsMemory(s: Session, c: CacheState, counters: seq<u32>)
    requires Shows(s, c, counters)
    ensures s.cache == c && s.counters == counters && |c.slots| == |c.tags| == 5
  {
  }

  lemma ShownAfterBatch(mac: Mac, s: Session, c: CacheState, counters: seq<u32>, blocks: seq<Slot>)
    requires Shows(s, c, counters)
    ensures |c.tags| == |c.slots| == 5 && c.evict < 5 && |counters| == MD_BLOCKS
    ensures
      var c' := Updated(mac, counters, c, blocks);
      Step(mac, s, Batch(blocks), s.(cache := c')) && Shows(s.(cache := c'), c', counters)
  {
    hide Updated;
    BatchKeepsShape(mac, counters, c, blocks);
  }

  lemma ShownIsTested(mac: Mac, s: Session, c: CacheState, counters: seq<u32>, pba: nat, now: u32)
    requires Shows(s, c, counters) && |c.slots| == |c.tags| && pba / 512 in c.tags
    ensures Step(mac, s, Tested(pba, now, IsFree(CachedEntry(c.tags, c.slots, pba), now)), s)
  {
    hide IsFree, CachedEntry;
  }

  lemma ShownIsBounded(s: Session, c: CacheState, counters: seq<u32>)
    requires Shows(s, c, counters)
    ensures Bounded(c.tags)
  {
  }

  lemma ShownAfterLog(mac: Mac, s: Session, c: CacheState, counters: seq<u32>, tx: Transaction, slots: seq<Slot>,
                      counters': seq<u32>)
    requires Shows(s, c, counters) && |slots| == |c.slots| == |c.tags| == 5
    requires LogApplied(mac, c.tags, c.slots, counters, tx, slots, counters')
    ensures |s.latest| == |s.counters| == MD_BLOCKS && |s.cache.tags| == 5
    ensures
      var t := AfterLog(s, tx, slots, counters');
      Step(mac, s, Logged(tx), t) && Shows(t, c.(slots := slots), counters')
  {
    hide LogApplied, Mds, FindTag, LogStep;
    AppliedIsStep(mac, s, tx, slots, counters');
    CountersAfter(mac, c, counters, tx, slots, counters');
  }

  lemma CountersAfter(mac: Mac, c: CacheState, counters: seq<u32>, tx: Transaction, slots: seq<Slot>,
                      counters': seq<u32>)
    requires |c.slots| == |c.tags| && LogApplied(mac, c.tags, c.slots, counters, tx, slots, counters')
    ensures |counters'| == |counters|
  {
    hide StepSlots, Resealed, Switches;
  }

  ghost predicate Bounded(tags: seq<nat>) { forall i :: 0 <= i < |tags| ==> tags[i] < MD_BLOCKS }

  lemma NothingResealed(mac: Mac, tags: seq<nat>, slots: seq<Slot>, counters: seq<u32>)
    requires |slots| == |tags|
    ensures Resealed(mac, tags, slots, slots, counters, {}) && counters == Bump(counters, {})
  {
  }

  /** The metadata blocks at the listed positions. */
  ghost function TagsOf(tags: seq<nat>, list: seq<nat>): set<nat> {
    set j | 0 <= j < |list| && list[j] < |tags| :: tags[list[j]]
  }

  lemma NothingTouched(tags: seq<nat>, counters: seq<u32>)
    ensures TagsOf(tags, []) == {} && BelowMax(counters, TagsOf(tags, []))
  {
  }

  /** One more position: its metadata block has been sealed already exactly when the position
      was seen before. */
  lemma NextTouched(tags: seq<nat>, list: seq<nat>, r: nat, mds: set<nat>, counters: seq<u32>)
    requires Touches(tags, list, mds) && Bounded(tags) && r < |list| && |counters| == MD_BLOCKS
    ensures list[r] < |tags| && Found(tags, list[r]) && tags[list[r]] < MD_BLOCKS && tags[list[r]] in mds
    ensures tags[list[r]] in TagsOf(tags, list[..r]) <==> list[r] in list[..r]
    ensures TagsOf(tags, list[..r + 1]) == TagsOf(tags, list[..r]) + {tags[list[r]]}
    ensures tags[list[r]] in TagsOf(tags, list[..r]) ==>
      TagsOf(tags, list[..r]) + {tags[list[r]]} == TagsOf(tags, list[..r])
    ensures !(counters[tags[list[r]]] < 0xFFFF_FFFF) ==> !BelowMax(counters, mds)
    ensures BelowMax(counters, TagsOf(tags, list[..r])) && counters[tags[list[r]]] < 0xFFFF_FFFF ==>
      BelowMax(counters, TagsOf(tags, list[..r]) + {tags[list[r]]})
    ensures Bump(counters, TagsOf(tags, list[..r]))[tags[list[r]]] == 0xFFFF_FFFF && list[r] !in list[..r] ==>
      counters[tags[list[r]]] == 0xFFFF_FFFF
  {
    hide FindTag;
    var before, more := list[..r], list[..r + 1];
    assert more == before + [list[r]];
    assert forall j :: 0 <= j < r ==> before[j] == list[j];
    if tags[list[r]] in TagsOf(tags, before) {
      var j :| 0 <= j < r && before[j] < |tags| && tags[before[j]] == tags[list[r]];
      assert Found(tags, before[j]);
    }
    if list[r] in before {
      var j :| 0 <= j < r && before[j] == list[r];
      assert tags[before[j]] in TagsOf(tags, before);
    }
    TagsAppend(tags, before, list[r]);
  }

  lemma TagsAppend(tags: seq<nat>, list: seq<nat>, pos: nat)
    requires pos < |tags|
    ensures TagsOf(tags, list + [pos]) == TagsOf(tags, list) + {tags[pos]}
  {
    var more := list + [pos];
    assert more[|list|] == pos;
    forall md | md in TagsOf(tags, list)
      ensures md in TagsOf(tags, more)
    {
      var j :| 0 <= j < |list| && list[j] < |tags| && tags[list[j]] == md;
      assert more[j] == list[j];
    }
  }

  lemma AllFinished(tags: seq<nat>, list: seq<nat>, mds: set<nat>)
    requires Touches(tags, list, mds)
    ensures TagsOf(tags, list) == mds
  {
    forall md | md in mds
      ensures md in TagsOf(tags, list)
    {
      var j :| 0 <= j < |list| && list[j] == FindTag(tags, md);
    }
  }

  /** prevMd and prevIdx describe the last address handled. */
  ghost predicate Previous(tags: seq<nat>, pbas: seq<nat>, prevMd: nat, prevIdx: nat, touched: seq<nat>) {
    if pbas == [] then prevMd == 0xFFFF_FFFF && touched == []
    else
      && prevMd == pbas[|pbas| - 1] / 512 && prevIdx == FindTag(tags, prevMd)
      && prevIdx < |tags| && prevIdx in touched
  }

  predicate SameAsLast(pbas: seq<nat>, md: nat) { pbas != [] && pbas[|pbas| - 1] / 512 == md }

  lemma StartOfLog(tags: seq<nat>, slots: seq<Slot>, log: seq<byte>, o: nat, keep: u32, now: u32)
    requires |slots| == |tags| && o <= |log|
    ensures LogPbas(log, o, 0) == []
    ensures StepSlots(tags, slots, [], keep, now) == Some(slots) && Switches([]) == 0
    ensures Touches(tags, [], Mds([])) && Previous(tags, [], 0xFFFF_FFFF, 0, [])
  {
  }

  lemma NextWord(log: seq<byte>, o: nat, i: nat)
    requires o + 4 * i + 4 <= |log|
    ensures
      var pba := U32(log, o + 4 * i);
      LogPbas(log, o, i + 1) == if pba < TOTAL_BLOCKS then LogPbas(log, o, i) + [pba] else LogPbas(log, o, i)
  {
  }

  /** What one more address adds to the log so far, and how it can halt the gatekeeper. */
  lemma OneMoreAddress(tags: seq<nat>, slots: seq<Slot>, log: seq<byte>, o: nat, i: nat, pbas: seq<nat>, pba: nat,
                       keep: u32, now: u32)
    requires |slots| == |tags| && i <= 1021 && o + 4096 <= |log|
    requires LogPbas(log, o, i) == pbas + [pba] && StepSlots(tags, slots, pbas, keep, now).Some?
    ensures
      var most := StepSlots(tags, slots, pbas, keep, now).value;
      && StepSlots(tags, slots, pbas + [pba], keep, now) == StepSlot(tags, most, pba, keep, now)
      && (pba / 512 !in tags ==> StepSlot(tags, most, pba, keep, now) == None)
    ensures Switches(pbas + [pba]) == Switches(pbas) + if SameAsLast(pbas, pba / 512) then 0 else 1
    ensures Mds(pbas + [pba]) == Mds(pbas) + {pba / 512}
    ensures StepSlots(tags, slots, pbas + [pba], keep, now).None? || Switches(pbas + [pba]) > 10 ==>
      var all := LogPbas(log, o, 1021);
      StepSlots(tags, slots, all, keep, now).None? || Switches(all) > 10
  {
    hide StepSlots, Switches, Mds, LogPbas;
    StepSlotsAppend(tags, slots, pbas, pba, keep, now);
    SwitchesAppend(pbas, pba);
    MdsAppend(pbas, pba);
    PrefixRuns(tags, slots, log, o, i, 1021, keep, now);
  }

  lemma LastPrevious(tags: seq<nat>, pbas: seq<nat>, pba: nat, prevIdx: nat, touched: seq<nat>)
    requires prevIdx == FindTag(tags, pba / 512) < |tags| && prevIdx in touched
    ensures Previous(tags, pbas + [pba], pba / 512, prevIdx, touched)
  {
  }
}
