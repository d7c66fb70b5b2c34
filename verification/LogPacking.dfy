/** versioning.c, the allocator of the write path: find_free_range hands out free blocks, keeps
    the two mappings, and packs the version log and the timelock log as it goes.  Versioning and
    timelocks are on, epoch mode is off. */
module LogPacking {
  import opened Extents
  import opened WriteLayout
  import opened Collections

  datatype Entry = Entry(lba: nat, pba: nat)

  /** A timelock log entry with the reason it was written. */
  datatype Logged = Itself(pba: nat) | Filled(pba: nat) | Handed(pba: nat)

  /** Why, and in which block, an address is in the timelock log. */
  ghost function Addresses(trace: seq<Logged>): (pbas: seq<nat>)
    ensures |pbas| == |trace|
  {
    seq(|trace|, i requires 0 <= i < |trace| => trace[i].pba)
  }

  ghost function HandedOut(trace: seq<Logged>): seq<nat> {
    if trace == [] then []
    else HandedOut(trace[..|trace| - 1]) + if trace[|trace| - 1].Handed? then [trace[|trace| - 1].pba] else []
  }

  ghost function FilledBlocks(trace: seq<Logged>): seq<nat> {
    if trace == [] then []
    else FilledBlocks(trace[..|trace| - 1]) + if trace[|trace| - 1].Filled? then [trace[|trace| - 1].pba] else []
  }

  lemma TraceAppend(trace: seq<Logged>, e: Logged)
    ensures Addresses(trace + [e]) == Addresses(trace) + [e.pba]
    ensures HandedOut(trace + [e]) == HandedOut(trace) + if e.Handed? then [e.pba] else []
    ensures FilledBlocks(trace + [e]) == FilledBlocks(trace) + if e.Filled? then [e.pba] else []
  {
    assert (trace + [e])[..|trace|] == trace;
  }

  ghost function PbasOf(entries: seq<Entry>): (pbas: seq<nat>)
    ensures |pbas| == |entries|
  {
    seq(|entries|, i requires 0 <= i < |entries| => entries[i].pba)
  }

  // ---- The mappings ----

  /** l2pmap and p2lmap are inverse to each other on their domains. */
  ghost predicate Inverse(l2p: map<nat, nat>, p2l: map<nat, nat>) {
    && (forall lba :: lba in l2p ==> l2p[lba] in p2l && p2l[l2p[lba]] == lba)
    && (forall pba :: pba in p2l ==> p2l[pba] in l2p && l2p[p2l[pba]] == pba)
  }

  /** No address on the free list is mapped or belongs to a log. */
  ghost predicate Unused(free: seq<nat>, p2l: map<nat, nat>, logBlocks: set<nat>) {
    && (forall i :: 0 <= i < |free| ==> free[i] !in p2l && free[i] !in logBlocks)
    && (forall pba :: pba in p2l ==> pba !in logBlocks)
  }

  /** Address 0, which the leftover test cannot tell from "none", is at most the head. */
  ghost predicate ZeroFirst(free: seq<nat>) { forall i :: 0 < i < |free| ==> free[i] != 0 }

  function Remap(p2l: map<nat, nat>, l2p: map<nat, nat>, lba: nat, pba: nat): map<nat, nat> {
    (if lba in l2p then p2l - {l2p[lba]} else p2l)[pba := lba]
  }

  lemma RemapKeepsInverse(l2p: map<nat, nat>, p2l: map<nat, nat>, lba: nat, pba: nat)
    requires Inverse(l2p, p2l) && pba !in p2l
    ensures Inverse(l2p[lba := pba], Remap(p2l, l2p, lba, pba))
  {
  }

  lemma RemapKeepsUnused(free: seq<nat>, l2p: map<nat, nat>, p2l: map<nat, nat>, logBlocks: set<nat>, lba: nat)
    requires |free| > 0 && Distinct(free) && Unused(free, p2l, logBlocks) && ZeroFirst(free)
    ensures ZeroFirst(free[1..])
    ensures Distinct(free[1..]) && Unused(free[1..], Remap(p2l, l2p, lba, free[0]), logBlocks)
  {
  }

  lemma TakenOut(free: seq<nat>, p2l: map<nat, nat>, logBlocks: set<nat>, k: nat)
    requires 0 < k < |free| && Distinct(free) && Unused(free, p2l, logBlocks) && ZeroFirst(free)
    ensures
      var rest := free[..k] + free[k + 1..];
      && free[k] != 0 && free[k] !in logBlocks
      && ZeroFirst(rest) && Distinct(rest) && Unused(rest, p2l, logBlocks + {free[k]})
  {
  }

  /** The version block waiting for the next timelock log. */
  function Pending(leftover: nat): seq<nat> { if leftover > 0 then [leftover] else [] }

  /** Where the timelock log stands once it has named itself and the version block left over. */
  function TdStart(tdmdIdx: nat, leftover: nat): nat {
    if tdmdIdx > 0 then tdmdIdx else if leftover > 0 then 2 else 1
  }

  /** Where the timelock log stands after k more blocks; a version log that they fill is named too,
      if there is room. */
  function TdEnd(tdmdIdx: nat, leftover: nat, k: nat, mapIdx: nat): nat {
    var t := TdStart(tdmdIdx, leftover) + k;
    if k == 0 then tdmdIdx else if mapIdx == 511 && t < 1021 then t + 1 else t
  }

  /** The version block that waits for the next timelock log after k more blocks. */
  function LeftoverEnd(tdmdIdx: nat, leftover: nat, k: nat, mapIdx: nat, vmd: nat): nat {
    if k == 0 then leftover else if mapIdx == 511 && TdStart(tdmdIdx, leftover) + k == 1021 then vmd else 0
  }

  /** How many blocks one call may hand out: those asked for, as far as both logs have room. */
  function Room(n: nat, mapIdx: nat, start: nat): nat
    requires mapIdx <= 511 && start <= 1021
  {
    var room := if n <= 511 - mapIdx then n else 511 - mapIdx;
    if room <= 1021 - start then room else 1021 - start
  }

  /** The addresses follow each other. */
  ghost predicate IsRun(free: seq<nat>) { forall i :: 0 <= i < |free| ==> free[i] == free[0] + i }

  /** Where a run off the free list ends: at the room there is, before the first gap, or, without a
      range to return, where the list itself ends first. */
  ghost predicate RunEnds(r: Option<Piece>, free: seq<nat>, room: nat) {
    match r
    case None => IsRun(free) && |free| < room
    case Some(p) =>
      && p.Data? && 0 < p.num <= room && p.num <= |free| && free[..p.num] == Pbas(ExtentOf(p))
      && (p.num < room ==> p.num < |free| && free[p.num] != p.pba + p.num)
  }

  /** How many blocks such a call takes off the list, and from where on. */
  ghost function HandedTo(r: Option<Piece>, free: seq<nat>): nat {
    if r.Some? && r.value.Data? then r.value.num else |free|
  }

  ghost function Front(free: seq<nat>): nat { if free == [] then 0 else free[0] }

  /** No range is found exactly if the whole free list is one run, shorter than there is room for;
      the list is then used up. */
  lemma NoRangeIff(r: Option<Piece>, free: seq<nat>, room: nat)
    requires RunEnds(r, free, room)
    ensures r == None <==> IsRun(free) && |free| < room
    ensures r.Some? ==> Front(free) == r.value.pba
  {
    if r.Some? {
      assert free[..r.value.num][0] == free[0] == Pbas(ExtentOf(r.value))[0];
    }
  }

  lemma StartIn(tdmdIdx: nat, leftover: nat)
    ensures tdmdIdx <= 1021 ==> TdStart(tdmdIdx, leftover) <= 1021
  {
  }

  /** The list without its element k. */
  ghost predicate Popped(free: seq<nat>, free': seq<nat>, k: nat) {
    k < |free| && free' == free[..k] + free[k + 1..]
  }

  // ---- Why a write fails ----

  /** 64 pieces do not hold the request, no free block is left for it, its pieces lie in more than five
      metadata blocks, or a full log finds no block for the next one. */
  datatype Failure = TooManyPieces | NoFreeBlock | TooManyMds | NoLogBlock

  /** The metadata blocks of a piece. */
  ghost function PieceMds(p: Piece): set<nat> {
    set q | q in Pbas(ExtentOf(p)) :: q / 512
  }

  ghost function MdsOf(pieces: seq<Piece>): set<nat> {
    if pieces == [] then {} else MdsOf(pieces[..|pieces| - 1]) + PieceMds(pieces[|pieces| - 1])
  }

  /** What became of a free list: it is still there, has been handed out, or belongs to a log now. */
  ghost predicate Conserved(was: seq<nat>, free: seq<nat>, handed: seq<nat>, logs: set<nat>) {
    multiset(was) == multiset(free) + multiset(handed) + multiset(logs)
  }

  lemma NothingTaken(was: seq<nat>, logs: set<nat>)
    ensures Conserved(was, was, [], logs - logs)
  {
    assert logs - logs == {};
  }

  lemma RunConserved(was: seq<nat>, free: seq<nat>, k: nat, handed: seq<nat>, run: seq<nat>, logs: set<nat>)
    requires Conserved(was, free, handed, logs) && k <= |free| && run == free[..k]
    ensures Conserved(was, free[k..], handed + run, logs)
  {
    assert free == free[..k] + free[k..];
  }

  lemma PopConserved(was: seq<nat>, free: seq<nat>, free': seq<nat>, k: nat, handed: seq<nat>, logs0: set<nat>,
                     logs: set<nat>)
    requires Conserved(was, free, handed, logs - logs0) && Popped(free, free', k)
    requires logs0 <= logs && free[k] !in logs
    ensures Conserved(was, free', handed, logs + {free[k]} - logs0)
  {
    assert free == free[..k] + [free[k]] + free[k + 1..];
    assert logs + {free[k]} - logs0 == logs - logs0 + {free[k]};
  }

  /** Data pieces that follow each other could not have been one. */
  ghost predicate Longest(pieces: seq<Piece>) {
    forall i, j :: 0 <= i && j == i + 1 < |pieces| && pieces[i].Data? && pieces[j].Data? ==>
      pieces[j].pba != pieces[i].pba + pieces[i].num
  }

  /** The last data piece ended at a full log or a gap. */
  ghost predicate Ended(pieces: seq<Piece>, free: seq<nat>, mapIdx: nat, tdmdIdx: nat) {
    pieces != [] && pieces[|pieces| - 1].Data? ==>
      || mapIdx == 511 || tdmdIdx == 1021
      || (free != [] && free[0] != pieces[|pieces| - 1].pba + pieces[|pieces| - 1].num)
  }

  /** Why a write fails: its pieces so far, how many blocks have been handed out, and what is left of
      the free list and the logs. */
  ghost predicate FailsFor(f: Failure, pieces: seq<Piece>, n: nat, handed: nat, free: seq<nat>, mapIdx: nat,
                           tdmdIdx: nat) {
    match f
    case TooManyPieces => |pieces| == 64 && UserBlocks(pieces) < n
    case NoFreeBlock => free == [] && UserBlocks(pieces) <= handed < n
    case TooManyMds => pieces != [] && |MdsOf(pieces[..|pieces| - 1])| <= 5 < |MdsOf(pieces)|
    case NoLogBlock =>
      && pieces != [] && UserBlocks(pieces) < n && |MdsOf(pieces)| <= 5
      && match pieces[|pieces| - 1]
         case TdLog(_) => tdmdIdx == 1021 && |free| <= 1019
         case VersionLog(_) => mapIdx == 511 && |free| <= 511
         case Data(_, _) => false
  }

  // ---- The allocator ----

  class Allocator {
    var l2p: map<nat, nat>
    var p2l: map<nat, nat>
    var freelist: seq<nat>
    var gcList: seq<nat>
    const versionLog: array<Entry>
    const tdLog: array<nat>
    var mapIdx: nat
    var tdmdIdx: nat
    var currentVmd: nat
    var currentTdmd: nat
    var leftover: nat
    /** Every block handed out, the version blocks filled so far, the timelock log with its
        reasons, the entries already shipped in full logs, and all log block addresses. */
    ghost var given: seq<Entry>
    ghost var filled: seq<nat>
    ghost var trace: seq<Logged>
    ghost var shippedVersion: seq<Entry>
    ghost var shippedTd: seq<nat>
    ghost var logBlocks: set<nat>

    ghost predicate MapsOk()
      reads this`l2p, this`p2l, this`freelist, this`logBlocks
    {
      Inverse(l2p, p2l) && Distinct(freelist) && Unused(freelist, p2l, logBlocks) && ZeroFirst(freelist)
    }

    /** Indices in bounds; the version log is what was handed out, the timelock log is the trace
        and names its own block. */
    ghost predicate BuffersOk()
      reads this`mapIdx, this`tdmdIdx, this`shippedVersion, this`shippedTd, this`given, this`trace, this`currentTdmd
      reads versionLog, tdLog
    {
      && versionLog.Length == 511 && tdLog.Length == 1021 && versionLog as object != tdLog
      && mapIdx <= 511 && tdmdIdx <= 1021
      && shippedVersion + versionLog[..mapIdx] == given
      && shippedTd + tdLog[..tdmdIdx] == Addresses(trace)
      && (tdmdIdx > 0 ==> currentTdmd in tdLog[..tdmdIdx])
    }

    /** Each block handed out is in the timelock log once, each filled version block once, the one
        filled together with the timelock log as soon as the next one starts. */
    ghost predicate RecordsOk()
      reads this`trace, this`given, this`filled, this`leftover, this`tdmdIdx
      reads this`currentVmd, this`currentTdmd, this`logBlocks
    {
      && HandedOut(trace) == PbasOf(given)
      && FilledBlocks(trace) + Pending(leftover) == filled
      && (leftover > 0 ==> tdmdIdx == 0 || tdmdIdx == 1021)
      && currentVmd > 0 && currentVmd in logBlocks && currentTdmd in logBlocks && currentVmd != currentTdmd
    }

    ghost predicate Valid()
      reads this, versionLog, tdLog
    {
      MapsOk() && BuffersOk() && RecordsOk()
    }

    /** After scan_disk: the mapping it has rebuilt, its free list, and both log blocks named in the
        first timelock log. */
    constructor (l2p: map<nat, nat>, p2l: map<nat, nat>, free: seq<nat>, vmd: nat, tdmd: nat)
      requires Inverse(l2p, p2l) && Distinct(free) && ZeroFirst(free) && Unused(free, p2l, {vmd, tdmd})
      requires vmd != tdmd && vmd > 0
      ensures Valid() && this.l2p == l2p && this.p2l == p2l && freelist == free && given == [] && filled == []
      ensures fresh(versionLog) && fresh(tdLog) && mapIdx == 0 && tdmdIdx == 2
      ensures currentVmd == vmd && currentTdmd == tdmd && trace == [Itself(vmd), Itself(tdmd)]
    {
      this.l2p, this.p2l, freelist, gcList := l2p, p2l, free, [];
      versionLog, tdLog := new Entry[511](_ => Entry(0, 0)), new nat[1021](_ => 0);
      mapIdx, tdmdIdx, currentVmd, currentTdmd, leftover := 0, 2, vmd, tdmd, 0;
      given, filled, trace := [], [], [Itself(vmd), Itself(tdmd)];
      shippedVersion, shippedTd, logBlocks := [], [], {vmd, tdmd};
      new;
      tdLog[0], tdLog[1] := vmd, tdmd;
      StartTrace(vmd, tdmd);
      assert tdLog[..2] == [vmd, tdmd];
    }

    method PutTd(ghost e: Logged, pba: nat)
      requires BuffersOk() && tdmdIdx < 1021 && e.pba == pba && (tdmdIdx == 0 ==> pba == currentTdmd)
      modifies this`tdmdIdx, this`trace, tdLog
      ensures BuffersOk() && tdmdIdx == old(tdmdIdx) + 1 && trace == old(trace) + [e]
    {
      hide HandedOut, FilledBlocks;
      ghost var was := tdLog[..tdmdIdx];
      tdLog[tdmdIdx] := pba;
      tdmdIdx := tdmdIdx + 1;
      trace := trace + [e];
      TraceAppend(old(trace), e);
      assert tdLog[..tdmdIdx] == was + [pba];
      assert shippedTd + (was + [pba]) == (shippedTd + was) + [pba];
    }

    /** A new timelock log names itself, then the version block left over from the last one. */
    method StartTdLog()
      requires BuffersOk() && RecordsOk() && tdmdIdx < 1021
      modifies this`tdmdIdx, this`trace, this`leftover, tdLog
      ensures BuffersOk() && RecordsOk() && leftover == 0 && tdmdIdx < 1021
      ensures tdmdIdx == TdStart(old(tdmdIdx), old(leftover))
    {
      hide HandedOut, FilledBlocks, BuffersOk, PbasOf;
      if tdmdIdx == 0 {
        TraceAppend(trace, Itself(currentTdmd));
        PutTd(Itself(currentTdmd), currentTdmd);
        if leftover > 0 {
          TraceAppend(trace, Filled(leftover));
          PutTd(Filled(leftover), leftover);
          leftover := 0;
          assert FilledBlocks(trace) + Pending(leftover) == filled;
        }
      }
    }

    /** The logging half of the allocation loop for one block. */
    method Record(lba: nat, pba: nat) returns (full: bool)
      requires BuffersOk() && RecordsOk() && mapIdx < 511 && tdmdIdx < 1021
      modifies this`mapIdx, this`tdmdIdx, this`trace, this`given, this`filled, this`leftover, versionLog, tdLog
      ensures BuffersOk() && RecordsOk() && given == old(given) + [Entry(lba, pba)]
      ensures filled == old(filled) + if mapIdx == 511 then [currentVmd] else []
      ensures mapIdx == old(mapIdx) + 1 <= 511 && tdmdIdx == TdEnd(old(tdmdIdx), old(leftover), 1, mapIdx) <= 1021
      ensures leftover == LeftoverEnd(old(tdmdIdx), old(leftover), 1, mapIdx, currentVmd)
      ensures full <==> mapIdx == 511 || tdmdIdx == 1021
    {
      hide BuffersOk, RecordsOk;
      StartTdLog();
      LogBoth(lba, pba);
      full := mapIdx == 511 || tdmdIdx == 1021;
      if full { CloseVersionLog(); }
    }

    method LogBoth(lba: nat, pba: nat)
      requires BuffersOk() && RecordsOk() && leftover == 0 && mapIdx < 511 && 0 < tdmdIdx < 1021
      modifies this`mapIdx, this`tdmdIdx, this`trace, this`given, versionLog, tdLog
      ensures BuffersOk() && RecordsOk() && given == old(given) + [Entry(lba, pba)]
      ensures mapIdx == old(mapIdx) + 1 && tdmdIdx == old(tdmdIdx) + 1
    {
      hide HandedOut, FilledBlocks, PbasOf, BuffersOk;
      LogVersion(lba, pba);
      TraceAppend(trace, Handed(pba));
      PbasAppend(old(given), Entry(lba, pba));
      PutTd(Handed(pba), pba);
    }

    /** A version block that has filled up is named in the timelock log, or in the next one when
        this one has no room left. */
    method CloseVersionLog()
      requires BuffersOk() && RecordsOk() && leftover == 0 && mapIdx <= 511 && 0 < tdmdIdx <= 1021
      modifies this`tdmdIdx, this`trace, this`filled, this`leftover, tdLog
      ensures BuffersOk() && RecordsOk() && tdmdIdx <= 1021
      ensures tdmdIdx == old(tdmdIdx) + if mapIdx == 511 && old(tdmdIdx) < 1021 then 1 else 0
      ensures leftover == if mapIdx == 511 && old(tdmdIdx) == 1021 then currentVmd else 0
      ensures filled == old(filled) + if mapIdx == 511 then [currentVmd] else []
    {
      hide HandedOut, FilledBlocks, PbasOf, BuffersOk;
      if mapIdx == 511 && tdmdIdx == 1021 {
        leftover := currentVmd;
        filled := filled + [currentVmd];
        assert FilledBlocks(trace) + [] == FilledBlocks(trace);
      } else if mapIdx == 511 {
        TraceAppend(trace, Filled(currentVmd));
        PutTd(Filled(currentVmd), currentVmd);
        filled := filled + [currentVmd];
        assert FilledBlocks(trace) + Pending(leftover) == filled;
      }
    }

    method LogVersion(lba: nat, pba: nat)
      requires BuffersOk() && mapIdx < 511
      modifies this`mapIdx, this`given, versionLog
      ensures BuffersOk() && mapIdx == old(mapIdx) + 1 && given == old(given) + [Entry(lba, pba)]
    {
      ghost var was, log := versionLog[..mapIdx], tdLog[..tdmdIdx];
      versionLog[mapIdx] := Entry(lba, pba);
      mapIdx := mapIdx + 1;
      given := given + [Entry(lba, pba)];
      assert versionLog[..mapIdx] == was + [Entry(lba, pba)];
      assert shippedVersion + (was + [Entry(lba, pba)]) == (shippedVersion + was) + [Entry(lba, pba)];
      assert tdLog[..tdmdIdx] == log;
    }

    /** The mapping half: the head of the free list goes to lba, what lba held goes to the
        garbage list. */
    method TakeHead(lba: nat) returns (pba: nat)
      requires MapsOk() && |freelist| > 0
      modifies this`l2p, this`p2l, this`freelist, this`gcList
      ensures MapsOk() && pba == old(freelist)[0] && freelist == old(freelist)[1..]
      ensures l2p == old(l2p)[lba := pba]
      ensures gcList == old(gcList) + if lba in old(l2p) then [old(l2p)[lba]] else []
    {
      pba := freelist[0];
      RemapKeepsUnused(freelist, l2p, p2l, logBlocks, lba);
      RemapKeepsInverse(l2p, p2l, lba, pba);
      freelist := freelist[1..];
      if lba in l2p {
        p2l := p2l - {l2p[lba]};
        gcList := gcList + [l2p[lba]];
      }
      l2p := l2p[lba := pba];
      p2l := p2l[pba := lba];
    }

    /** find_free_range: a full log first, otherwise a run of consecutive blocks off the free list,
        which ends where RunEnds says.  Without a range to return the blocks of the run stay handed
        out. */
    method FindFreeRange(lba: nat, n: nat) returns (r: Option<Piece>)
      requires Valid() && n > 0
      modifies this, versionLog, tdLog
      ensures Valid() && logBlocks == old(logBlocks) && currentVmd == old(currentVmd) && currentTdmd == old(currentTdmd)
      ensures old(tdmdIdx) == 1021 ==> r == Some(TdLog(currentTdmd))
      ensures old(tdmdIdx) < 1021 && old(mapIdx) == 511 ==> r == Some(VersionLog(currentVmd))
      ensures old(tdmdIdx) == 1021 || old(mapIdx) == 511 ==>
        && given == old(given) && l2p == old(l2p) && gcList == old(gcList) && freelist == old(freelist)
        && mapIdx == old(mapIdx) && tdmdIdx == old(tdmdIdx) && leftover == old(leftover)
      ensures old(tdmdIdx) < 1021 && old(mapIdx) < 511 ==>
        RunEnds(r, old(freelist), Room(n, old(mapIdx), TdStart(old(tdmdIdx), old(leftover))))
      ensures old(tdmdIdx) < 1021 && old(mapIdx) < 511 ==>
        var k, start := HandedTo(r, old(freelist)), Front(old(freelist));
        && k <= |old(freelist)| && freelist == old(freelist)[k..] && mapIdx == old(mapIdx) + k
        && given == old(given) + Allotted(lba, start, k)
        && l2p == Assigned(old(l2p), lba, start, k) && gcList == old(gcList) + Replaced(old(l2p), lba, k)
        && tdmdIdx == TdEnd(old(tdmdIdx), old(leftover), k, mapIdx)
        && leftover == LeftoverEnd(old(tdmdIdx), old(leftover), k, mapIdx, currentVmd)
    {
      hide TdEnd, LeftoverEnd, Room, RunEnds, TdStart, Assigned, Replaced, Allotted;
      hide MapsOk, HandedOut, FilledBlocks, PbasOf, Addresses;
      StartIn(tdmdIdx, leftover);
      if tdmdIdx == 1021 { return Some(TdLog(currentTdmd)); }
      if mapIdx == 511 { return Some(VersionLog(currentVmd)); }
      r := TakeRun(lba, n);
    }

    /** pop_nth_in_freelist */
    method PopNth(k: nat) returns (r: Option<nat>)
      requires MapsOk() && k >= 2
      modifies this`freelist, this`logBlocks
      ensures MapsOk() && (r == None <==> |old(freelist)| <= k)
      ensures r == None ==> freelist == old(freelist) && logBlocks == old(logBlocks)
      ensures r.Some? ==> r.value == old(freelist)[k] && r.value != 0 && r.value !in old(logBlocks)
      ensures r.Some? ==> freelist == old(freelist)[..k] + old(freelist)[k + 1..]
      ensures r.Some? ==> logBlocks == old(logBlocks) + {r.value}
    {
      if |freelist| <= k { return None; }
      TakenOut(freelist, p2l, logBlocks, k);
      r := Some(freelist[k]);
      freelist, logBlocks := freelist[..k] + freelist[k + 1..], logBlocks + {freelist[k]};
    }

    /** set_pointer_and_reset_tdmd: the full log is shipped and the next one gets its block. */
    method ResetTd() returns (ok: bool)
      requires Valid() && tdmdIdx == 1021
      modifies this`freelist, this`logBlocks, this`shippedTd, this`currentTdmd, this`tdmdIdx
      ensures Valid() && (ok <==> |old(freelist)| > 1019)
      ensures old(logBlocks) <= logBlocks
      ensures if ok then Popped(old(freelist), freelist, 1019) && logBlocks == old(logBlocks) + {currentTdmd}
        else freelist == old(freelist) && logBlocks == old(logBlocks)
      ensures !ok ==> tdmdIdx == 1021
      ensures ok ==> tdmdIdx == 0 && currentTdmd == old(freelist)[1019] && currentTdmd !in old(logBlocks)
      ensures ok ==> shippedTd == old(shippedTd) + tdLog[..]
    {
      hide MapsOk, HandedOut, FilledBlocks, PbasOf, Addresses;
      var next := PopNth(1019);
      if next == None { return false; }
      shippedTd := shippedTd + tdLog[..];
      assert tdLog[..tdmdIdx] == tdLog[..];
      currentTdmd, tdmdIdx := next.value, 0;
      assert tdLog[..0] == [] && shippedTd + [] == shippedTd;
      ok := true;
    }

    /** set_pointer_and_reset_vmd */
    method ResetVmd() returns (ok: bool)
      requires Valid() && mapIdx == 511
      modifies this`freelist, this`logBlocks, this`shippedVersion, this`currentVmd, this`mapIdx
      ensures Valid() && (ok <==> |old(freelist)| > 511)
      ensures old(logBlocks) <= logBlocks
      ensures if ok then Popped(old(freelist), freelist, 511) && logBlocks == old(logBlocks) + {currentVmd}
        else freelist == old(freelist) && logBlocks == old(logBlocks)
      ensures !ok ==> mapIdx == 511
      ensures ok ==> mapIdx == 0 && currentVmd == old(freelist)[511] && currentVmd !in old(logBlocks)
      ensures ok ==> shippedVersion == old(shippedVersion) + versionLog[..]
    {
      hide MapsOk, HandedOut, FilledBlocks, PbasOf, Addresses;
      var next := PopNth(511);
      if next == None { return false; }
      shippedVersion := shippedVersion + versionLog[..];
      assert versionLog[..mapIdx] == versionLog[..];
      currentVmd, mapIdx := next.value, 0;
      assert versionLog[..0] == [] && shippedVersion + [] == shippedVersion;
      ok := true;
    }

    /** The metadata blocks of a piece join those of the request, as long as five are enough. */
    static method QueueMds(touched: seq<nat>, p: Piece, ghost before: seq<Piece>) returns (ok: bool, more: seq<nat>)
      requires Distinct(touched) && |touched| <= 5 && ExtentOf(p).num > 0 && SetOf(touched) == MdsOf(before)
      ensures ok <==> |MdsOf(before + [p])| <= 5
      ensures ok ==> Distinct(more) && |more| <= 5 && SetOf(more) == MdsOf(before + [p])
    {
      hide SetOf, MdsOf, Distinct;
      var e := ExtentOf(p);
      var md, last := e.pba / 512, (e.pba + e.num - 1) / 512;
      more := touched;
      MdsAppend(before, p);
      NoMdsYet(touched, md);
      MdsInOrder(e.pba, e.num);
      while md <= last
        invariant e.pba / 512 <= md <= last + 1 && Distinct(more) && |more| <= 5
        invariant Queued(touched, more, e.pba / 512, md)
        decreases last + 1 - md
      {
        QueuedMore(touched, more, e.pba / 512, md);
        if md !in more {
          if |more| >= 5 {
            TooMany(touched, more + [md], e.pba / 512, md, last, p);
            return false, more;
          }
          more := more + [md];
        }
        md := md + 1;
      }
      ok := true;
      AllQueued(touched, more, md, p);
      DistinctSize(more);
    }

    /** What the allocator and the pieces of a request agree on: f0, g0 and lb0 are the free list, the
        blocks handed out and the log blocks when the request came. */
    ghost predicate Sound(lba: nat, pieces: seq<Piece>, f0: seq<nat>, g0: seq<Entry>, lb0: set<nat>)
      reads this`freelist, this`given, this`logBlocks
    {
      && Longest(pieces) && given == g0 + GivenBy(lba, pieces) && |GivenBy(lba, pieces)| == UserBlocks(pieces)
      && lb0 <= logBlocks && Conserved(f0, freelist, PbasOf(GivenBy(lba, pieces)), logBlocks - lb0)
    }

    /** The log blocks among the pieces are one of each kind at most, and will be with the next ones,
        once the logs stand at m and t. */
    ghost predicate LogsSound(pieces: seq<Piece>, m: nat, t: nat)
      reads this`currentVmd, this`currentTdmd, this`logBlocks
    {
      OneOfEach(pieces) && Budget(pieces, m, t) && Reserved(pieces, currentVmd, currentTdmd, logBlocks)
    }

    /** The next piece: a log block where a log is full, else a run. */
    method NextPiece(lba: nat, left: nat, ghost before: seq<Piece>, ghost f0: seq<nat>, ghost g0: seq<Entry>,
                     ghost lb0: set<nat>) returns (r: Option<Piece>)
      requires Valid() && left > 0 && UserBlocks(before) < 64
      requires Sound(lba, before, f0, g0, lb0) && LogsSound(before, mapIdx, tdmdIdx)
      requires Ended(before, freelist, mapIdx, tdmdIdx)
      modifies this, versionLog, tdLog
      ensures Valid() && old(logBlocks) == logBlocks
      ensures r == None ==>
        && freelist == [] && lb0 <= logBlocks && g0 + GivenBy(lba, before) <= given
        && UserBlocks(before) <= |given| - |g0| < UserBlocks(before) + left
        && Conserved(f0, freelist, PbasOf(given[|g0|..]), logBlocks - lb0)
      ensures r.Some? ==> Sound(lba, before + [r.value], f0, g0, lb0)
      ensures r.Some? && r.value.Data? ==>
        && 0 < r.value.num <= left && LogsSound(before + [r.value], mapIdx, tdmdIdx)
        && (r.value.num < left ==> Ended(before + [r.value], freelist, mapIdx, tdmdIdx))
      ensures r.Some? && r.value.TdLog? ==>
        tdmdIdx == 1021 && r.value.pba == currentTdmd && LogsSound(before + [r.value], mapIdx, 0)
      ensures r.Some? && r.value.VersionLog? ==>
        && mapIdx == 511 && tdmdIdx < 1021 && r.value.pba == currentVmd
        && LogsSound(before + [r.value], 0, tdmdIdx)
      ensures r.Some? && !r.value.Data? ==> mapIdx == old(mapIdx) && tdmdIdx == old(tdmdIdx)
    {
      hide Valid, UserBlocks, OneOfEach, GivenBy, Conserved, Longest, Ended, Reserved, Budget, PbasOf;
      hide RunEnds, TdStart, TdEnd, LeftoverEnd, Room, Allotted, GivenOne, Assigned, Replaced, Front, Pbas;
      BoundsOf();
      ghost var i0, t0, lo, free, handed := mapIdx, tdmdIdx, leftover, freelist, PbasOf(GivenBy(lba, before));
      r := FindFreeRange(lba, left);
      if r == None {
        NoneEnds(lba, free, left, i0, t0, lo);
        RunConserved(f0, free, |free|, handed, PbasOf(Allotted(lba, Front(free), |free|)), logBlocks - lb0);
        HandedAfter(g0, GivenBy(lba, before), Allotted(lba, Front(free), |free|));
        return;
      }
      var p := r.value;
      OnePieceMore(g0, lba, before, p);
      if t0 == 1021 {
        PlacedTd(before, p, mapIdx, currentVmd, currentTdmd, logBlocks);
      } else if i0 == 511 {
        PlacedVersion(before, p, tdmdIdx, currentVmd, currentTdmd, logBlocks);
      } else {
        SomeEnds(lba, before, p, free, left, i0, t0, lo);
        RunConserved(f0, free, p.num, handed, PbasOf(GivenOne(lba, p)), logBlocks - lb0);
        PlacedData(before, p, i0, t0, mapIdx, tdmdIdx, currentVmd, currentTdmd, logBlocks);
      }
      LongestMore(before, p, free, i0, t0);
    }

    /** A log block among the pieces is followed by the reservation of the next one. */
    method ShipLog(td: bool, ghost lba: nat, ghost pieces: seq<Piece>, ghost f0: seq<nat>, ghost g0: seq<Entry>,
                   ghost lb0: set<nat>) returns (done: bool)
      requires Valid() && Sound(lba, pieces, f0, g0, lb0) && pieces != []
      requires
        var p := pieces[|pieces| - 1];
        if td then p == TdLog(currentTdmd) && tdmdIdx == 1021 && LogsSound(pieces, mapIdx, 0)
        else p == VersionLog(currentVmd) && mapIdx == 511 && LogsSound(pieces, 0, tdmdIdx)
      modifies this`freelist, this`logBlocks, this`shippedTd, this`currentTdmd, this`tdmdIdx
      modifies this`shippedVersion, this`currentVmd, this`mapIdx
      ensures Valid() && Sound(lba, pieces, f0, g0, lb0)
      ensures done ==> LogsSound(pieces, mapIdx, tdmdIdx) && Ended(pieces, freelist, mapIdx, tdmdIdx)
      ensures done ==> if td then tdmdIdx == 0 && mapIdx == old(mapIdx) else mapIdx == 0 && tdmdIdx == old(tdmdIdx)
      ensures !done ==> if td then tdmdIdx == 1021 && |freelist| <= 1019 else mapIdx == 511 && |freelist| <= 511
    {
      hide Valid, UserBlocks, OneOfEach, GivenBy, Conserved, Longest, Reserved, Budget, PbasOf, Popped;
      BoundsOf();
      ghost var free, blocks, handed := freelist, logBlocks, PbasOf(GivenBy(lba, pieces));
      ghost var vmd, tdmd := currentVmd, currentTdmd;
      if td {
        done := ResetTd();
      } else {
        done := ResetVmd();
      }
      if done {
        NewReserve(pieces, vmd, tdmd, blocks, currentVmd, currentTdmd, logBlocks);
        PoppedInside(free, freelist, if td then 1019 else 511);
        PopConserved(f0, free, freelist, if td then 1019 else 511, handed, lb0, blocks);
      }
    }

    /** The allocation loop of device_write: pieces until the request is placed.  Where it fails, the
        failure tells why; whatever it has taken off the free list by then has been handed out or
        belongs to a log. */
    method Place(lba: nat, n: nat) returns (failure: Option<Failure>, pieces: seq<Piece>)
      requires Valid() && 0 < n <= 64
      modifies this, versionLog, tdLog
      ensures Valid() && |pieces| <= 64 && old(given) + GivenBy(lba, pieces) <= given && Longest(pieces)
      ensures failure != Some(NoFreeBlock) ==> given == old(given) + GivenBy(lba, pieces)
      ensures failure == None ==> UserBlocks(pieces) == n && OneOfEach(pieces) && LogsApart(pieces)
      ensures failure == None ==> |MdsOf(pieces)| <= 5
      ensures failure.Some? ==>
        FailsFor(failure.value, pieces, n, |given| - |old(given)|, freelist, mapIdx, tdmdIdx)
      ensures old(logBlocks) <= logBlocks
      ensures Conserved(old(freelist), freelist, PbasOf(given[|old(given)|..]), logBlocks - old(logBlocks))
    {
      hide Valid, UserBlocks, OneOfEach, GivenBy, Conserved, Longest, Ended, Reserved, Budget, SetOf, MdsOf, PbasOf;
      hide Distinct, LogsApart;
      BoundsOf();
      ghost var g0, f0, lb0 := given, freelist, logBlocks;
      var left: nat := n;
      var touched := [];
      pieces, failure := [], None;
      NoPieces(lba, f0, lb0, mapIdx, tdmdIdx);
      assert g0 + [] == g0;
      while left > 0
        invariant left <= n && UserBlocks(pieces) == n - left && |pieces| <= 64 && Valid()
        invariant Sound(lba, pieces, f0, g0, lb0) && LogsSound(pieces, mapIdx, tdmdIdx)
        invariant left > 0 ==> Ended(pieces, freelist, mapIdx, tdmdIdx)
        invariant Distinct(touched) && |touched| <= 5 && SetOf(touched) == MdsOf(pieces)
        decreases left, (if mapIdx == 511 then 1 else 0) + (if tdmdIdx == 1021 then 1 else 0)
      {
        HandedSince(g0, lba, pieces);
        DistinctSize(touched);
        if |pieces| >= 64 { return Some(TooManyPieces), pieces; }
        ghost var before := pieces;
        var r := NextPiece(lba, left, before, f0, g0, lb0);
        if r == None { return Some(NoFreeBlock), pieces; }
        pieces := pieces + [r.value];
        HandedSince(g0, lba, pieces);
        OnePieceMore(g0, lba, before, r.value);
        var few;
        few, touched := QueueMds(touched, r.value, before);
        if !few { return Some(TooManyMds), pieces; }
        if r.value.Data? {
          left := left - r.value.num;
        } else {
          var done := ShipLog(r.value.TdLog?, lba, pieces, f0, g0, lb0);
          if !done { return Some(NoLogBlock), pieces; }
        }
      }
      HandedSince(g0, lba, pieces);
      DistinctSize(touched);
      ReservedApart(pieces, currentVmd, currentTdmd, logBlocks);
    }

    lemma BoundsOf()
      requires Valid()
      ensures mapIdx <= 511 && tdmdIdx <= 1021 && currentVmd != currentTdmd
      ensures currentVmd in logBlocks && currentTdmd in logBlocks
    {
    }

    /** One turn of the allocation loop: the head of the free list is mapped and logged. */
    method HandOne(lba: nat) returns (full: bool)
      requires Valid() && |freelist| > 0 && mapIdx < 511 && tdmdIdx < 1021
      modifies this`l2p, this`p2l, this`freelist, this`gcList
      modifies this`mapIdx, this`tdmdIdx, this`trace, this`given, this`filled, this`leftover, versionLog, tdLog
      ensures Valid() && freelist == old(freelist)[1..]
      ensures given == old(given) + [Entry(lba, old(freelist)[0])] && l2p == old(l2p)[lba := old(freelist)[0]]
      ensures gcList == old(gcList) + if lba in old(l2p) then [old(l2p)[lba]] else []
      ensures mapIdx == old(mapIdx) + 1 <= 511 && tdmdIdx == TdEnd(old(tdmdIdx), old(leftover), 1, mapIdx) <= 1021
      ensures leftover == LeftoverEnd(old(tdmdIdx), old(leftover), 1, mapIdx, currentVmd)
      ensures full <==> mapIdx == 511 || tdmdIdx == 1021
    {
      hide BuffersOk, RecordsOk, MapsOk, TdEnd, LeftoverEnd;
      var pba := TakeHead(lba);
      full := Record(lba, pba);
    }

    /** The allocation loop. */
    method TakeRun(lba: nat, n: nat) returns (r: Option<Piece>)
      requires Valid() && n > 0 && mapIdx < 511 && tdmdIdx < 1021
      modifies this`l2p, this`p2l, this`freelist, this`gcList
      modifies this`mapIdx, this`tdmdIdx, this`trace, this`given, this`filled, this`leftover, versionLog, tdLog
      ensures Valid()
      ensures RunEnds(r, old(freelist), Room(n, old(mapIdx), TdStart(old(tdmdIdx), old(leftover))))
      ensures
        var k, start := HandedTo(r, old(freelist)), Front(old(freelist));
        && k <= |old(freelist)| && freelist == old(freelist)[k..] && mapIdx == old(mapIdx) + k
        && given == old(given) + Allotted(lba, start, k)
        && l2p == Assigned(old(l2p), lba, start, k) && gcList == old(gcList) + Replaced(old(l2p), lba, k)
        && tdmdIdx == TdEnd(old(tdmdIdx), old(leftover), k, mapIdx)
        && leftover == LeftoverEnd(old(tdmdIdx), old(leftover), k, mapIdx, currentVmd)
    {
      hide Valid, Pbas, Allotted, Assigned, Replaced, TdEnd, TdStart, LeftoverEnd, Room, RunEnds, IsRun;
      ghost var free, was, before, gc := freelist, l2p, given, gcList;
      ghost var t0, lo, m0 := tdmdIdx, leftover, mapIdx;
      NoIndex(t0, lo, m0, currentVmd);
      EmptyRun(l2p, lba, Front(free));
      assert given + [] == given && gcList + [] == gcList && free[0..] == free;
      if |freelist| == 0 {
        NoRun(free, n, m0, t0, lo, m0);
        return None;
      }
      var start, num := freelist[0], 0;
      while num < n
        invariant num <= n && num <= |free| && freelist == free[num..] && Valid()
        invariant free[..num] == Pbas(Extent(start, num))
        invariant given == before + Allotted(lba, start, num) && l2p == Assigned(was, lba, start, num)
        invariant mapIdx == old(mapIdx) + num < 511 && tdmdIdx < 1021
        invariant tdmdIdx == TdEnd(t0, lo, num, mapIdx) && leftover == LeftoverEnd(t0, lo, num, mapIdx, currentVmd)
        invariant num == 0 ==> |freelist| > 0 && freelist[0] == start
        invariant gcList == gc + Replaced(was, lba, num)
      {
        if |freelist| == 0 {
          WholeRun(free, start);
          NoRun(free, n, m0, t0, lo, mapIdx);
          return None;
        }
        if num > 0 && freelist[0] != start + num { break; }
        OneMoreIndex(t0, lo, num, mapIdx, currentVmd);
        assert freelist[0] == start + num;
        AssignedElsewhere(was, lba, start, num, lba + num);
        var full := HandOne(lba + num);
        num := num + 1;
        assert free[..num] == free[..num - 1] + [start + num - 1];
        RunGrows(was, lba, start, num - 1);
        if full { break; }
      }
      r := Some(Data(start, num));
      SomeRun(free, start, num, n, m0, t0, lo, mapIdx);
    }
  }

  lemma NoIndex(t0: nat, lo: nat, mapIdx: nat, vmd: nat)
    ensures TdEnd(t0, lo, 0, mapIdx) == t0 && LeftoverEnd(t0, lo, 0, mapIdx, vmd) == lo
    ensures t0 < 1021 ==> TdStart(t0, lo) < 1021
  {
  }

  lemma OneMoreIndex(t0: nat, lo: nat, k: nat, mapIdx: nat, vmd: nat)
    requires mapIdx < 511
    ensures
      var t, l, m := TdEnd(t0, lo, k, mapIdx), LeftoverEnd(t0, lo, k, mapIdx, vmd), mapIdx + 1;
      && TdEnd(t, l, 1, m) == TdEnd(t0, lo, k + 1, m)
      && LeftoverEnd(t, l, 1, m, vmd) == LeftoverEnd(t0, lo, k + 1, m, vmd)
  {
  }

  lemma NoRun(free: seq<nat>, n: nat, m0: nat, t0: nat, lo: nat, mapIdx: nat)
    requires |free| < n && (free == [] || IsRun(free)) && mapIdx == m0 + |free| < 511
    requires TdEnd(t0, lo, |free|, mapIdx) < 1021 && TdStart(t0, lo) < 1021
    ensures RunEnds(None, free, Room(n, m0, TdStart(t0, lo)))
  {
  }

  lemma SomeRun(free: seq<nat>, start: nat, num: nat, n: nat, m0: nat, t0: nat, lo: nat, mapIdx: nat)
    requires 0 < num <= n && num <= |free| && free[..num] == Pbas(Extent(start, num)) && mapIdx == m0 + num <= 511
    requires TdStart(t0, lo) < 1021 && TdEnd(t0, lo, num, mapIdx) <= 1021
    requires
      || num == n || mapIdx == 511 || TdEnd(t0, lo, num, mapIdx) == 1021
      || (num < |free| && free[num] != start + num)
    ensures RunEnds(Some(Data(start, num)), free, Room(n, m0, TdStart(t0, lo)))
  {
    hide Pbas;
  }

  lemma WholeRun(free: seq<nat>, start: nat)
    requires free[..|free|] == Pbas(Extent(start, |free|)) && free != [] && free[0] == start
    ensures IsRun(free)
  {
    forall i | 0 <= i < |free|
      ensures free[i] == free[0] + i
    {
      assert free[..|free|][i] == Pbas(Extent(start, |free|))[i];
    }
  }

  lemma StartTrace(vmd: nat, tdmd: nat)
    ensures
      var trace := [Itself(vmd), Itself(tdmd)];
      Addresses(trace) == [vmd, tdmd] && HandedOut(trace) == [] && FilledBlocks(trace) == []
  {
    TraceAppend([], Itself(vmd));
    TraceAppend([Itself(vmd)], Itself(tdmd));
    assert [] + [Itself(vmd)] == [Itself(vmd)];
    assert [Itself(vmd)] + [Itself(tdmd)] == [Itself(vmd), Itself(tdmd)];
  }

  /** The entries of a run of blocks. */
  ghost function Allotted(lba: nat, pba: nat, num: nat): (entries: seq<Entry>)
    ensures |entries| == num
  {
    seq(num, i requires 0 <= i < num => Entry(lba + i, pba + i))
  }

  /** The mapping with a run of blocks assigned. */
  ghost function Assigned(l2p: map<nat, nat>, lba: nat, pba: nat, num: nat): map<nat, nat> {
    if num == 0 then l2p else Assigned(l2p, lba, pba, num - 1)[lba + num - 1 := pba + num - 1]
  }

  /** The blocks the logical ones were mapped to before, oldest first. */
  ghost function Replaced(l2p: map<nat, nat>, lba: nat, num: nat): seq<nat> {
    if num == 0 then []
    else Replaced(l2p, lba, num - 1) + if lba + num - 1 in l2p then [l2p[lba + num - 1]] else []
  }

  lemma EmptyRun(l2p: map<nat, nat>, lba: nat, start: nat)
    ensures Pbas(Extent(start, 0)) == [] && Allotted(lba, start, 0) == []
    ensures Assigned(l2p, lba, start, 0) == l2p && Replaced(l2p, lba, 0) == []
  {
  }

  lemma RunGrows(l2p: map<nat, nat>, lba: nat, start: nat, num: nat)
    ensures Pbas(Extent(start, num + 1)) == Pbas(Extent(start, num)) + [start + num]
    ensures Allotted(lba, start, num + 1) == Allotted(lba, start, num) + [Entry(lba + num, start + num)]
    ensures Assigned(l2p, lba, start, num + 1) == Assigned(l2p, lba, start, num)[lba + num := start + num]
    ensures Replaced(l2p, lba, num + 1)
      == Replaced(l2p, lba, num) + if lba + num in l2p then [l2p[lba + num]] else []
  {
  }

  lemma {:induction false} AssignedElsewhere(l2p: map<nat, nat>, lba: nat, pba: nat, num: nat, other: nat)
    requires other >= lba + num
    ensures other in Assigned(l2p, lba, pba, num) <==> other in l2p
    ensures other in l2p ==> Assigned(l2p, lba, pba, num)[other] == l2p[other]
  {
    if num > 0 { AssignedElsewhere(l2p, lba, pba, num - 1, other); }
  }

  lemma PbasAppend(entries: seq<Entry>, e: Entry)
    ensures PbasOf(entries + [e]) == PbasOf(entries) + [e.pba]
  {
  }

  // ---- One log block of each kind per write ----

  ghost predicate HasTd(pieces: seq<Piece>) { exists i :: 0 <= i < |pieces| && pieces[i].TdLog? }

  ghost predicate HasVersion(pieces: seq<Piece>) { exists i :: 0 <= i < |pieces| && pieces[i].VersionLog? }

  /** A log that was reset during this write cannot have filled up again, and right after a
      version block the timelock log is not full. */
  ghost predicate Budget(pieces: seq<Piece>, mapIdx: nat, tdmdIdx: nat) {
    && (HasTd(pieces) ==> tdmdIdx <= 4 * UserBlocks(pieces))
    && (HasVersion(pieces) ==> mapIdx <= UserBlocks(pieces))
    && forall i :: 0 <= i < |pieces| && pieces[i].VersionLog? && UserBlocks(pieces[..i]) == UserBlocks(pieces) ==>
      tdmdIdx < 1021
  }

  /** The log blocks placed so far are log blocks, and differ from the ones reserved next. */
  ghost predicate Reserved(pieces: seq<Piece>, vmd: nat, tdmd: nat, logBlocks: set<nat>) {
    && (forall i :: 0 <= i < |pieces| && !pieces[i].Data? ==> pieces[i].pba in logBlocks)
    && (forall i :: 0 <= i < |pieces| && pieces[i].TdLog? ==> pieces[i].pba != vmd)
    && (forall i :: 0 <= i < |pieces| && pieces[i].VersionLog? ==> pieces[i].pba != tdmd)
    && LogsApart(pieces)
  }

  lemma ReservedApart(pieces: seq<Piece>, vmd: nat, tdmd: nat, logBlocks: set<nat>)
    requires Reserved(pieces, vmd, tdmd, logBlocks)
    ensures LogsApart(pieces)
  {
  }

  lemma NoPieces(lba: nat, free: seq<nat>, logs: set<nat>, mapIdx: nat, tdmdIdx: nat)
    ensures UserBlocks([]) == 0 && OneOfEach([]) && GivenBy(lba, []) == [] && Longest([])
    ensures Ended([], free, mapIdx, tdmdIdx) && Conserved(free, free, PbasOf([]), logs - logs)
    ensures Distinct([]) && SetOf([]) == MdsOf([]) && Budget([], mapIdx, tdmdIdx)
    ensures forall vmd, tdmd :: Reserved([], vmd, tdmd, logs)
  {
    NothingTaken(free, logs);
  }

  /** What has been handed out since. */
  lemma HandedSince(g0: seq<Entry>, lba: nat, pieces: seq<Piece>)
    ensures (g0 + GivenBy(lba, pieces))[|g0|..] == GivenBy(lba, pieces)
  {
  }

  lemma HandedAfter(g0: seq<Entry>, a: seq<Entry>, b: seq<Entry>)
    ensures (g0 + a + b)[|g0|..] == a + b && PbasOf(a + b) == PbasOf(a) + PbasOf(b) && g0 + a <= g0 + a + b
  {
  }

  lemma OnePieceMore(g0: seq<Entry>, lba: nat, pieces: seq<Piece>, p: Piece)
    ensures UserBlocks(pieces + [p]) == UserBlocks(pieces) + if p.Data? then p.num else 0
    ensures g0 + GivenBy(lba, pieces + [p]) == g0 + GivenBy(lba, pieces) + GivenOne(lba, p)
    ensures |GivenBy(lba, pieces + [p])| == |GivenBy(lba, pieces)| + if p.Data? then p.num else 0
    ensures PbasOf(GivenBy(lba, pieces + [p])) == PbasOf(GivenBy(lba, pieces)) + PbasOf(GivenOne(lba, p))
    ensures (g0 + GivenBy(lba, pieces + [p]))[|g0|..] == GivenBy(lba, pieces + [p])
    ensures (pieces + [p])[..|pieces|] == pieces && (pieces + [p])[|pieces|] == p
    ensures !p.Data? ==> GivenBy(lba, pieces + [p]) == GivenBy(lba, pieces)
  {
    hide UserBlocks, GivenBy;
    UserAppend(pieces, p);
    GivenAppend(lba, pieces, p);
    HandedAfter(g0, GivenBy(lba, pieces), GivenOne(lba, p));
    assert g0 + (GivenBy(lba, pieces) + GivenOne(lba, p)) == g0 + GivenBy(lba, pieces) + GivenOne(lba, p);
  }

  lemma AllottedPbas(lba: nat, pba: nat, num: nat)
    ensures PbasOf(Allotted(lba, pba, num)) == Pbas(Extent(pba, num))
  {
  }

  lemma NoneEnds(lba: nat, free: seq<nat>, n: nat, i0: nat, t0: nat, lo: nat)
    requires i0 < 511 && t0 < 1021 && RunEnds(None, free, Room(n, i0, TdStart(t0, lo)))
    ensures |free| < n && free[|free|..] == []
    ensures PbasOf(Allotted(lba, Front(free), |free|)) == free[..|free|]
  {
    AllottedPbas(lba, Front(free), |free|);
  }

  lemma SomeEnds(lba: nat, before: seq<Piece>, p: Piece, free: seq<nat>, n: nat, i0: nat, t0: nat, lo: nat)
    requires i0 < 511 && t0 < 1021 && RunEnds(Some(p), free, Room(n, i0, TdStart(t0, lo)))
    ensures p.Data? && 0 < p.num <= n && p.num <= |free| && p.pba == free[0] == Front(free)
    ensures GivenOne(lba, p) == Allotted(lba, Front(free), p.num) && PbasOf(GivenOne(lba, p)) == free[..p.num]
    ensures TdEnd(t0, lo, p.num, i0 + p.num) <= t0 + 4 * p.num
    ensures p.num < n ==> Ended(before + [p], free[p.num..], i0 + p.num, TdEnd(t0, lo, p.num, i0 + p.num))
  {
    AllottedPbas(lba, p.pba, p.num);
    assert free[..p.num][0] == free[0] == Pbas(ExtentOf(p))[0];
    assert (before + [p])[|before|] == p;
  }

  lemma LongestMore(pieces: seq<Piece>, p: Piece, free: seq<nat>, mapIdx: nat, tdmdIdx: nat)
    requires Longest(pieces) && Ended(pieces, free, mapIdx, tdmdIdx)
    requires p.Data? ==> mapIdx != 511 && tdmdIdx != 1021 && free != [] && p.pba == free[0]
    ensures Longest(pieces + [p])
    ensures !p.Data? ==> forall f, m, t :: Ended(pieces + [p], f, m, t)
  {
    var more := pieces + [p];
    forall i, j | 0 <= i && j == i + 1 < |more| && more[i].Data? && more[j].Data?
      ensures more[j].pba != more[i].pba + more[i].num
    {
      if j < |pieces| { assert pieces[j].pba != pieces[i].pba + pieces[i].num; }
    }
  }

  lemma PoppedInside(free: seq<nat>, free': seq<nat>, k: nat)
    ensures Popped(free, free', k) ==> k < |free|
  {
  }

  lemma MdsAppend(pieces: seq<Piece>, p: Piece)
    ensures MdsOf(pieces + [p]) == MdsOf(pieces) + PieceMds(p)
  {
    assert (pieces + [p])[..|pieces|] == pieces;
  }

  /** The metadata blocks from first to below md have joined the list. */
  ghost predicate Queued(touched: seq<nat>, more: seq<nat>, first: nat, md: nat) {
    forall x :: x in more <==> x in touched || first <= x < md
  }

  lemma NoMdsYet(touched: seq<nat>, md: nat)
    ensures Queued(touched, touched, md, md)
  {
  }

  lemma QueuedMore(touched: seq<nat>, more: seq<nat>, first: nat, md: nat)
    requires Queued(touched, more, first, md) && first <= md && Distinct(more)
    ensures md in more ==> Queued(touched, more, first, md + 1)
    ensures md !in more ==> Queued(touched, more + [md], first, md + 1) && Distinct(more + [md])
  {
  }

  /** The blocks of an extent lie in the metadata blocks from that of the first to that of the last. */
  lemma MdsInOrder(pba: nat, num: nat)
    requires num > 0
    ensures pba / 512 <= (pba + num - 1) / 512
    ensures forall q :: q in Pbas(Extent(pba, num)) ==> pba / 512 <= q / 512 <= (pba + num - 1) / 512
  {
    var pbas := Pbas(Extent(pba, num));
    forall q | q in pbas
      ensures pba / 512 <= q / 512 <= (pba + num - 1) / 512
    {
      var i :| 0 <= i < |pbas| && q == pbas[i];
    }
  }

  lemma MdIsNamed(pba: nat, num: nat, md: nat) returns (q: nat)
    requires num > 0 && pba / 512 <= md <= (pba + num - 1) / 512
    ensures q in Pbas(Extent(pba, num)) && q / 512 == md
  {
    q := if md == pba / 512 then pba else 512 * md;
    assert Pbas(Extent(pba, num))[q - pba] == q;
  }

  lemma PieceMdsAre(p: Piece, md: nat)
    requires ExtentOf(p).num > 0
    ensures md in PieceMds(p) <==> ExtentOf(p).pba / 512 <= md <= (ExtentOf(p).pba + ExtentOf(p).num - 1) / 512
  {
    hide Pbas;
    var e := ExtentOf(p);
    MdsInOrder(e.pba, e.num);
    if e.pba / 512 <= md <= (e.pba + e.num - 1) / 512 {
      var q := MdIsNamed(e.pba, e.num, md);
    }
  }

  lemma AllQueued(touched: seq<nat>, more: seq<nat>, md: nat, p: Piece)
    requires ExtentOf(p).num > 0 && md == (ExtentOf(p).pba + ExtentOf(p).num - 1) / 512 + 1
    requires Queued(touched, more, ExtentOf(p).pba / 512, md)
    ensures SetOf(more) == SetOf(touched) + PieceMds(p)
  {
    hide PieceMds;
    forall x: nat
      ensures x in SetOf(more) <==> x in SetOf(touched) + PieceMds(p)
    {
      PieceMdsAre(p, x);
    }
  }

  lemma TooMany(touched: seq<nat>, more: seq<nat>, first: nat, md: nat, last: nat, p: Piece)
    requires ExtentOf(p).num > 0 && first == ExtentOf(p).pba / 512 <= md <= last
    requires last == (ExtentOf(p).pba + ExtentOf(p).num - 1) / 512
    requires Queued(touched, more, first, md + 1) && Distinct(more) && |more| == 6
    ensures |SetOf(touched) + PieceMds(p)| > 5
  {
    hide PieceMds, Distinct;
    forall x: nat | x in SetOf(more)
      ensures x in SetOf(touched) + PieceMds(p)
    {
      PieceMdsAre(p, x);
    }
    DistinctSize(more);
    SubsetSize(SetOf(more), SetOf(touched) + PieceMds(p));
  }

  /** The blocks a placed piece hands out: its data blocks, in order, each iteration to the logical
      blocks from the same lba on. */
  ghost function GivenOne(lba: nat, p: Piece): seq<Entry> {
    if p.Data? then Allotted(lba, p.pba, p.num) else []
  }

  ghost function GivenBy(lba: nat, pieces: seq<Piece>): seq<Entry> {
    if pieces == [] then []
    else GivenBy(lba, pieces[..|pieces| - 1]) + GivenOne(lba, pieces[|pieces| - 1])
  }

  lemma GivenAppend(lba: nat, pieces: seq<Piece>, p: Piece)
    ensures GivenBy(lba, pieces + [p]) == GivenBy(lba, pieces) + GivenOne(lba, p)
  {
    hide GivenOne;
    assert (pieces + [p])[..|pieces|] == pieces;
  }

  lemma PrefixBlocks(pieces: seq<Piece>, p: Piece)
    ensures forall i :: 0 <= i <= |pieces| ==> (pieces + [p])[..i] == pieces[..i]
    ensures forall i :: 0 <= i < |pieces| ==> (pieces + [p])[i] == pieces[i]
    ensures (pieces + [p])[|pieces|] == p && pieces[..|pieces|] == pieces
    ensures forall i :: 0 <= i <= |pieces| ==> UserBlocks(pieces[..i]) <= UserBlocks(pieces)
  {
    hide UserBlocks;
    forall i | 0 <= i <= |pieces|
      ensures UserBlocks(pieces[..i]) <= UserBlocks(pieces)
    {
      UserMonotonic(pieces, i);
    }
  }

  lemma OneOfEachMore(pieces: seq<Piece>, p: Piece)
    requires OneOfEach(pieces)
    requires p.TdLog? ==> !HasTd(pieces) && forall i :: 0 <= i < |pieces| && pieces[i].VersionLog? ==>
      UserBlocks(pieces[..i]) < UserBlocks(pieces)
    requires p.VersionLog? ==> !HasVersion(pieces)
    ensures OneOfEach(pieces + [p])
  {
    hide UserBlocks;
    PrefixBlocks(pieces, p);
  }

  lemma PlacedTd(before: seq<Piece>, p: Piece, mapIdx: nat, vmd: nat, tdmd: nat, logBlocks: set<nat>)
    requires p == TdLog(tdmd) && Budget(before, mapIdx, 1021) && UserBlocks(before) < 64 && OneOfEach(before)
    requires Reserved(before, vmd, tdmd, logBlocks) && vmd != tdmd && tdmd in logBlocks
    ensures OneOfEach(before + [p]) && Budget(before + [p], mapIdx, 0)
    ensures Reserved(before + [p], vmd, tdmd, logBlocks)
  {
    hide UserBlocks, OneOfEach;
    PrefixBlocks(before, p);
    UserAppend(before, p);
    OneOfEachMore(before, p);
  }

  lemma PlacedVersion(before: seq<Piece>, p: Piece, tdmdIdx: nat, vmd: nat, tdmd: nat, logBlocks: set<nat>)
    requires p == VersionLog(vmd) && Budget(before, 511, tdmdIdx) && UserBlocks(before) < 64 && OneOfEach(before)
    requires Reserved(before, vmd, tdmd, logBlocks) && vmd != tdmd && vmd in logBlocks && tdmdIdx < 1021
    ensures OneOfEach(before + [p]) && Budget(before + [p], 0, tdmdIdx)
    ensures Reserved(before + [p], vmd, tdmd, logBlocks)
  {
    hide UserBlocks, OneOfEach;
    PrefixBlocks(before, p);
    UserAppend(before, p);
    OneOfEachMore(before, p);
  }

  lemma PlacedData(before: seq<Piece>, p: Piece, mapIdx: nat, tdmdIdx: nat, mapIdx': nat, tdmdIdx': nat,
                   vmd: nat, tdmd: nat, logBlocks: set<nat>)
    requires p.Data? && p.num > 0 && Budget(before, mapIdx, tdmdIdx) && OneOfEach(before)
    requires mapIdx' == mapIdx + p.num && tdmdIdx' <= tdmdIdx + 4 * p.num
    requires Reserved(before, vmd, tdmd, logBlocks)
    ensures OneOfEach(before + [p]) && Budget(before + [p], mapIdx', tdmdIdx')
    ensures Reserved(before + [p], vmd, tdmd, logBlocks)
  {
    hide UserBlocks, OneOfEach;
    PrefixBlocks(before, p);
    UserAppend(before, p);
    OneOfEachMore(before, p);
  }

  /** A block reserved afresh is none of those placed. */
  lemma NewReserve(pieces: seq<Piece>, vmd: nat, tdmd: nat, was: set<nat>, vmd': nat, tdmd': nat, now: set<nat>)
    requires Reserved(pieces, vmd, tdmd, was) && was <= now
    requires (vmd' == vmd || vmd' !in was) && (tdmd' == tdmd || tdmd' !in was)
    ensures Reserved(pieces, vmd', tdmd', now)
  {
  }
}
