/** Restarting the gatekeeper: the log pointers are persisted and read back, and the chain of log
    blocks is walked from head to tail and replayed. */
module Recovery {
  import opened Bytes
  import opened Timelock
  import opened Replay
  import opened LogUpdates
  import opened Freshness
  import opened LogChain
  import opened Executed
  import opened Requests
  import opened Collections
  import Probing

  /** Where the first log block goes, and where the pointers to head and tail are kept. */
  const FIRST_TAIL: nat := 1019
  const LOG_STATE_BLOCK: nat := 2621439

  // ---- persist_log_state and load_log_state ----

  method PersistLogState(head: u32, tail: u32, block: array<byte>)
    requires block.Length == 4096
    modifies block
    ensures U32(block[..], 0) == head && U32(block[..], 4) == tail
  {
    hide Bytes32, Word4;
    var h, t := Bytes32(head), Bytes32(tail);
    forall k | 0 <= k < 4 { block[k] := h[k]; }
    forall k | 4 <= k < 8 { block[k] := t[k - 4]; }
    WordRoundTrip(head);
    WordRoundTrip(tail);
  }

  /** None where the original halts: an address below the first log block or off the disk. */
  function LoadLogState(b: Block): Option<(nat, nat)> {
    var head, tail := U32(b, 0), U32(b, 4);
    if FIRST_TAIL <= head < TOTAL_BLOCKS && FIRST_TAIL <= tail < TOTAL_BLOCKS then Some((head, tail)) else None
  }

  // ---- Runs ----

  /** Each range fits on the disk, spares the committed log blocks, and its pointers are new. */
  ghost predicate ProperRun(l: Log, ranges: seq<Range>) {
    ranges == [] ||
    var n := |ranges| - 1;
    var r := ranges[n];
    && ProperRun(l, ranges[..n])
    && r.pba + |r.blocks| <= TOTAL_BLOCKS && Spares(RunLog(l, ranges[..n]), r.pba, |r.blocks|)
    && PathIsNew(RunLog(l, ranges)) && RunLog(l, ranges).tail < TOTAL_BLOCKS
  }

  lemma {:induction false} ProperFits(l: Log, ranges: seq<Range>)
    requires ProperRun(l, ranges)
    ensures Fit(ranges)
    decreases |ranges|
  {
    if ranges != [] {
      var n := |ranges| - 1;
      ProperFits(l, ranges[..n]);
      assert ranges == ranges[..n] + [ranges[n]];
    }
  }

  lemma {:induction false} RunKeepsChain(disk: seq<Block>, head: nat, l: Log, ranges: seq<Range>, start: seq<Entry>)
    requires Chain(disk, head, l, start) && ProperRun(l, ranges)
    ensures |disk| == TOTAL_BLOCKS && Fit(ranges) && Chain(RunDisk(disk, ranges), head, RunLog(l, ranges), start)
    decreases |ranges|
  {
    hide Chain, Spares, PathIsNew, CheckRange, WriteRange;
    ChainSize(disk, head, l, start);
    ProperFits(l, ranges);
    if ranges != [] {
      var n := |ranges| - 1;
      RunKeepsChain(disk, head, l, ranges[..n], start);
      RangeKeepsChain(RunDisk(disk, ranges[..n]), head, RunLog(l, ranges[..n]), ranges[n].pba, ranges[n].blocks, start);
    }
  }

  lemma ChainSize(disk: seq<Block>, head: nat, l: Log, start: seq<Entry>)
    requires Chain(disk, head, l, start)
    ensures |disk| == TOTAL_BLOCKS
  {
  }

  // ---- The walk ----

  /** From head, the pointers read from the disk led through visited, once each and never to the
      tail, and now lead to curr. */
  ghost predicate Walked(disk: seq<Block>, head: nat, tail: nat, visited: seq<nat>, curr: nat) {
    && (visited + [curr])[0] == head && Distinct(visited)
    && forall k :: 0 <= k < |visited| ==>
      && visited[k] < |disk| && visited[k] != tail
      && (visited + [curr])[k + 1] == Pointer(disk[visited[k]])
  }

  ghost predicate InBounds(visited: seq<nat>) { forall k :: 0 <= k < |visited| ==> visited[k] < TOTAL_BLOCKS }

  /** Why a walk stops: at the tail, at a block seen before, or off the disk. */
  ghost predicate Stops(tail: nat, visited: seq<nat>, curr: nat) {
    curr == tail || curr in visited || curr >= TOTAL_BLOCKS
  }

  /** The transactions of the visited blocks. */
  function VisitedTxs(disk: seq<Block>, visited: seq<nat>): (txs: seq<Transaction>)
    requires forall k :: 0 <= k < |visited| ==> visited[k] < |disk|
    ensures |txs| == |visited|
  {
    seq(|visited|, k requires 0 <= k < |visited| => Tx(disk[visited[k]]))
  }

  lemma {:induction false} WalkFollowsPath(disk: seq<Block>, head: nat, l: Log, start: seq<Entry>, visited: seq<nat>,
                                           curr: nat, k: nat)
    requires Chain(disk, head, l, start) && Walked(disk, head, l.tail, visited, curr)
    requires k <= |visited| && k <= |l.commits|
    ensures (visited + [curr])[k] == Path(l)[k]
  {
    hide Pointer, Tx, PathIsNew;
    if k > 0 {
      WalkFollowsPath(disk, head, l, start, visited, curr, k - 1);
      assert visited[k - 1] == (visited + [curr])[k - 1] == Path(l)[k - 1] == l.commits[k - 1].pba;
    }
  }

  /** On a whole chain the walk visits exactly the committed log blocks, in order, and ends at
      the tail. */
  lemma WalkIsPath(disk: seq<Block>, head: nat, l: Log, start: seq<Entry>, visited: seq<nat>, curr: nat)
    requires Chain(disk, head, l, start)
    requires Walked(disk, head, l.tail, visited, curr) && Stops(l.tail, visited, curr)
    ensures |visited| == |l.commits| && curr == l.tail
    ensures forall k :: 0 <= k < |visited| ==> visited[k] == l.commits[k].pba
  {
    hide Pointer, Tx, Linked, Walked, OnDisk;
    var n := |l.commits|;
    forall k | 0 <= k <= |visited| && k <= n
      ensures (visited + [curr])[k] == Path(l)[k]
    {
      WalkFollowsPath(disk, head, l, start, visited, curr, k);
    }
    if |visited| > n {
      assert (visited + [curr])[n] == visited[n];
      WalkAvoidsTail(disk, head, l.tail, visited, curr, n);
    } else if |visited| < n {
      assert (visited + [curr])[|visited|] == curr == Path(l)[|visited|];
      assert Path(l)[|visited|] != Path(l)[n];
      PathOnDisk(disk, head, l, start, |visited|);
      forall j | 0 <= j < |visited|
        ensures visited[j] != curr
      {
        assert (visited + [curr])[j] == visited[j] == Path(l)[j];
        assert Path(l)[j] != Path(l)[|visited|];
      }
    } else {
      assert forall k :: 0 <= k < |visited| ==> (visited + [curr])[k] == visited[k];
      assert (visited + [curr])[n] == curr;
    }
  }

  lemma WalkAvoidsTail(disk: seq<Block>, head: nat, tail: nat, visited: seq<nat>, curr: nat, k: nat)
    requires Walked(disk, head, tail, visited, curr) && k < |visited|
    ensures visited[k] != tail
  {
  }

  lemma PathOnDisk(disk: seq<Block>, head: nat, l: Log, start: seq<Entry>, k: nat)
    requires Chain(disk, head, l, start) && k <= |l.commits|
    ensures Path(l)[k] < TOTAL_BLOCKS
  {
  }

  lemma VisitedAreCommitted(disk: seq<Block>, head: nat, l: Log, start: seq<Entry>, visited: seq<nat>)
    requires Chain(disk, head, l, start) && |visited| == |l.commits|
    requires forall k :: 0 <= k < |visited| ==> visited[k] == l.commits[k].pba && visited[k] < |disk|
    ensures VisitedTxs(disk, visited) == Txs(l.commits)
  {
    hide Tx;
  }

  // ---- The metadata blocks a log block needs ----

  /** Each metadata block at its first address. */
  function Needed(pbas: seq<nat>): seq<nat> {
    if pbas == [] then []
    else
      var most, md := Needed(pbas[..|pbas| - 1]), pbas[|pbas| - 1] / 512;
      if md in most then most else most + [md]
  }

  lemma NeededAppend(pbas: seq<nat>, pba: nat)
    ensures Needed(pbas + [pba]) == if pba / 512 in Needed(pbas) then Needed(pbas) else Needed(pbas) + [pba / 512]
  {
    assert (pbas + [pba])[..|pbas|] == pbas;
  }

  lemma {:induction false} NeededAreMds(pbas: seq<nat>)
    ensures Distinct(Needed(pbas)) && forall md :: md in Needed(pbas) <==> md in Mds(pbas)
    decreases |pbas|
  {
    hide Mds;
    if pbas == [] {
      NoMds();
    } else {
      var most, pba := pbas[..|pbas| - 1], pbas[|pbas| - 1];
      assert pbas == most + [pba];
      NeededAreMds(most);
      MdsAppend(most, pba);
    }
  }

  lemma NoMds()
    ensures Mds([]) == {}
  {
  }

  lemma {:induction false} NeededGrows(b: Block, i: nat, n: nat)
    requires i <= n <= 1021
    ensures Needed(LogPbas(b, 0, i)) <= Needed(LogPbas(b, 0, n))
    decreases n
  {
    hide Needed, Word4;
    if i < n {
      NeededGrows(b, i, n - 1);
      NextNeeded(b, n - 1);
    }
  }

  lemma NextNeeded(b: Block, i: nat)
    requires i < 1021
    ensures
      var pba, most := U32(b, 4 * i), Needed(LogPbas(b, 0, i));
      Needed(LogPbas(b, 0, i + 1)) == if pba >= TOTAL_BLOCKS || pba / 512 in most then most else most + [pba / 512]
  {
    hide Needed, Word4;
    var most, pba := LogPbas(b, 0, i), U32(b, 4 * i);
    if pba < TOTAL_BLOCKS { NeededAppend(most, pba); } else { assert most + [] == most; }
  }

  /** The collecting loop of handle_init: it halts at the sixth metadata block. */
  method NeededMds(b: Block) returns (ok: bool, needed: array<nat>, n: nat)
    ensures fresh(needed) && n <= needed.Length
    ensures ok <==> |Needed(Tx(b).pbas)| <= 5
    ensures ok ==> needed[..n] == Needed(Tx(b).pbas)
  {
    hide Needed, LogPbas, Word4;
    needed, n := new nat[5](_ => 0), 0;
    NothingNeeded(b);
    var i := 0;
    while i < 1021
      invariant i <= 1021 && n <= 5 && needed[..n] == Needed(LogPbas(b, 0, i))
    {
      ghost var before := needed[..n];
      var pba := U32(b, 4 * i);
      NextNeeded(b, i);
      NeededGrows(b, i + 1, 1021);
      i := i + 1;
      if pba < TOTAL_BLOCKS {
        var found := Among(needed, n, pba / 512);
        if !found {
          if n == 5 { return false, needed, n; }
          needed[n] := pba / 512;
          n := n + 1;
          assert needed[..n] == before + [pba / 512];
        }
      }
    }
    ok := true;
  }

  method Among(needed: array<nat>, n: nat, md: nat) returns (found: bool)
    requires n <= needed.Length
    ensures found <==> md in needed[..n]
  {
    var j := 0;
    while j < n && needed[j] != md
      invariant j <= n && md !in needed[..j]
    {
      j := j + 1;
    }
    found := j < n;
  }

  lemma NothingNeeded(b: Block)
    ensures Needed(LogPbas(b, 0, 0)) == []
  {
  }

  // ---- The replay loop ----

  /** A walk that has seen as many blocks as the disk has must come back to one of them. */
  lemma AllSeen(visited: seq<nat>, x: nat)
    requires Distinct(visited) && |visited| == TOTAL_BLOCKS && InBounds(visited)
    requires x < TOTAL_BLOCKS
    ensures x in visited
  {
    DistinctSize(visited);
    forall y | y in SetOf(visited)
      ensures y < TOTAL_BLOCKS
    {
      assert y in visited;
    }
    Probing.FullSubset(SetOf(visited), TOTAL_BLOCKS);
    assert x in SetOf(visited);
  }

  lemma WalkIsDistinct(disk: seq<Block>, head: nat, tail: nat, visited: seq<nat>, curr: nat)
    requires Walked(disk, head, tail, visited, curr)
    ensures Distinct(visited)
  {
  }

  lemma StartOfWalk(disk: seq<Block>, head: nat, tail: nat)
    ensures Walked(disk, head, tail, [], head)
  {
  }

  lemma WalkMore(disk: seq<Block>, head: nat, tail: nat, visited: seq<nat>, curr: nat)
    requires Walked(disk, head, tail, visited, curr) && curr < |disk| && curr != tail && curr !in visited
    ensures Walked(disk, head, tail, visited + [curr], Pointer(disk[curr]))
  {
    hide Pointer;
    var more, next := visited + [curr], Pointer(disk[curr]);
    forall k | 0 <= k < |more|
      ensures more[k] < |disk| && more[k] != tail && (more + [next])[k + 1] == Pointer(disk[more[k]])
      ensures (more + [next])[0] == head
    {
      assert (more + [next])[k] == (visited + [curr])[k];
      if k < |visited| { assert (visited + [curr])[k + 1] == (more + [next])[k + 1]; }
    }
  }

  /** The driver's side of recovery: what it answers at step k when asked for the given blocks. */
  type Answers = (nat, seq<nat>) -> seq<byte>

  /** Where the replay of a log block stops the program: it needs more than five metadata blocks,
      the answer has the wrong length, the answer is rejected, or the log block cannot be executed. */
  datatype Halt = TooManyBlocks | NoAnswer | BadAnswer | CannotExecute

  function AnswerTo(answers: Answers, k: nat, b: Block): seq<byte> { answers(k, Needed(Tx(b).pbas)) }

  /** The answer as blocks. */
  function AnswerBlocks(bytes: seq<byte>): (blocks: seq<Slot>)
    ensures |blocks| == |bytes| / SLOT_BYTES
  {
    BlocksIn(bytes, 0, |bytes| / SLOT_BYTES)
  }

  /** How the replay of log block b goes from session s, given the bytes that the driver answers. */
  ghost function Outcome(mac: Mac, s: Session, b: Block, bytes: seq<byte>): Option<Halt>
    requires Whole(s)
  {
    var n := |Needed(Tx(b).pbas)|;
    if n > 5 then Some(TooManyBlocks)
    else if |bytes| != SLOT_BYTES * n then Some(NoAnswer)
    else
      var p := TakeBlocks(mac, s.counters, s.cache, AnswerBlocks(bytes));
      if !p.ok then Some(BadAnswer)
      else if !LogAccepted(p.cache.tags, p.cache.slots, s.counters, Tx(b)) then Some(CannotExecute)
      else None
  }

  /** The events of one step of the replay. */
  function StepEvents(b: Block, bytes: seq<byte>, halt: Option<Halt>): seq<Event> {
    match halt
    case None => [Batch(AnswerBlocks(bytes)), Logged(Tx(b))]
    case Some(BadAnswer) => [Batch(AnswerBlocks(bytes))]
    case Some(CannotExecute) => [Batch(AnswerBlocks(bytes))]
    case Some(_) => []
  }

  /** How the replay loop ends that starts in states[base]: with halt == None exactly where a walk
      stops; otherwise block curr halts it, in the session reached after the visited blocks, for the
      reason that Outcome gives. */
  ghost predicate Replayed(mac: Mac, states: seq<Session>, base: nat, disk: seq<Block>, head: nat, tail: nat,
                           answers: Answers, halt: Option<Halt>, visited: seq<nat>, curr: nat) {
    && |disk| == TOTAL_BLOCKS && InBounds(visited) && Walked(disk, head, tail, visited, curr)
    && (halt.None? <==> Stops(tail, visited, curr))
    && (halt.Some? ==>
         var n := base + 2 * |visited|;
         && n < |states| && Whole(states[n])
         && halt == Outcome(mac, states[n], disk[curr], AnswerTo(answers, |visited|, disk[curr])))
  }

  /** The events of the loop: those of the visited blocks, and what the halting step has done. */
  function ReplayEvents(disk: seq<Block>, answers: Answers, halt: Option<Halt>, visited: seq<nat>, curr: nat):
    seq<Event>
    requires |disk| == TOTAL_BLOCKS && InBounds(visited) && (halt.Some? ==> curr < |disk|)
  {
    VisitedEvents(disk, visited, answers)
    + if halt.None? then [] else StepEvents(disk[curr], AnswerTo(answers, |visited|, disk[curr]), halt)
  }

  /** The events of the visited blocks. */
  function VisitedEvents(disk: seq<Block>, visited: seq<nat>, answers: Answers): (events: seq<Event>)
    requires |disk| == TOTAL_BLOCKS && InBounds(visited)
    ensures |events| == 2 * |visited|
  {
    if visited == [] then []
    else
      var n := |visited| - 1;
      var b := disk[visited[n]];
      VisitedEvents(disk, visited[..n], answers) + StepEvents(b, AnswerTo(answers, n, b), None)
  }

  lemma NoVisits(disk: seq<Block>, answers: Answers)
    requires |disk| == TOTAL_BLOCKS
    ensures VisitedEvents(disk, [], answers) == []
  {
  }

  lemma VisitMore(disk: seq<Block>, visited: seq<nat>, answers: Answers, curr: nat)
    requires |disk| == TOTAL_BLOCKS && InBounds(visited) && curr < |disk|
    ensures VisitedEvents(disk, visited + [curr], answers)
      == VisitedEvents(disk, visited, answers)
         + StepEvents(disk[curr], AnswerTo(answers, |visited|, disk[curr]), None)
  {
    hide StepEvents, AnswerTo;
    assert (visited + [curr])[..|visited|] == visited;
  }

  lemma {:induction false} VisitedAreLogged(disk: seq<Block>, visited: seq<nat>, answers: Answers)
    requires |disk| == TOTAL_BLOCKS && InBounds(visited)
    ensures LoggedTxs(VisitedEvents(disk, visited, answers)) == VisitedTxs(disk, visited)
    decreases |visited|
  {
    hide Tx, AnswerTo, StepEvents, LoggedTxs;
    if visited == [] {
      NothingToLog();
    } else {
      var n := |visited| - 1;
      var b := disk[visited[n]];
      VisitedAreLogged(disk, visited[..n], answers);
      LoggedConcat(VisitedEvents(disk, visited[..n], answers), StepEvents(b, AnswerTo(answers, n, b), None));
      OneStepLogged(b, AnswerTo(answers, n, b));
      assert VisitedTxs(disk, visited) == VisitedTxs(disk, visited[..n]) + [Tx(b)];
    }
  }

  lemma NothingToLog()
    ensures LoggedTxs([]) == []
  {
  }

  lemma OneStepLogged(b: Block, bytes: seq<byte>)
    ensures LoggedTxs(StepEvents(b, bytes, None)) == [Tx(b)]
  {
    hide Tx, AnswerBlocks;
    var batch, log := Batch(AnswerBlocks(bytes)), Logged(Tx(b));
    assert StepEvents(b, bytes, None) == [batch] + [log];
    LoggedConcat([batch], [log]);
  }

  /** LOG_STATE_BLOCK is written last; it must not be a committed log block. */
  lemma StateBlockKeepsChain(disk: seq<Block>, head: nat, l: Log, start: seq<Entry>, state: Block)
    requires Chain(disk, head, l, start) && Spares(l, LOG_STATE_BLOCK, 1)
    ensures Chain(disk[LOG_STATE_BLOCK := state], head, l, start)
  {
    hide Linked, PathIsNew, Tx;
  }

  /** Recovery rebuilds what execution produced.  After any proper run from an empty log, with
      the pointers persisted in a way that loads back, a walk that stops has visited exactly the
      committed log blocks in order, and replaying them gives the executed entries. */
  lemma RecoveryRebuilds(disk: seq<Block>, start: seq<Entry>, ranges: seq<Range>, state: Block,
                         visited: seq<nat>, curr: nat)
    requires |disk| == TOTAL_BLOCKS && ProperRun(Log(FIRST_TAIL, [], start), ranges)
    requires
      var l := RunLog(Log(FIRST_TAIL, [], start), ranges);
      && Spares(l, LOG_STATE_BLOCK, 1)
      && LoadLogState(state) == Some((FIRST_TAIL, l.tail)) && Fit(ranges)
      && var after := RunDisk(disk, ranges)[LOG_STATE_BLOCK := state];
      Walked(after, FIRST_TAIL, l.tail, visited, curr) && Stops(l.tail, visited, curr)
    ensures
      var l := RunLog(Log(FIRST_TAIL, [], start), ranges);
      var after := RunDisk(disk, ranges)[LOG_STATE_BLOCK := state];
      && |visited| == |l.commits| && (forall k :: 0 <= k < |visited| ==> visited[k] == l.commits[k].pba)
      && (forall k :: 0 <= k < |visited| ==> visited[k] < |after|)
      && VisitedTxs(after, visited) == Txs(l.commits) && ReplayLog(start, VisitedTxs(after, visited)) == l.entries
  {
    hide ProperRun, RunLog, RunDisk, Spares, Walked, Stops, Linked, PathIsNew, Tx;
    var l0 := Log(FIRST_TAIL, [], start);
    EmptyChain(disk, start);
    RunKeepsChain(disk, FIRST_TAIL, l0, ranges, start);
    var l := RunLog(l0, ranges);
    StateBlockKeepsChain(RunDisk(disk, ranges), FIRST_TAIL, l, start, state);
    var after := RunDisk(disk, ranges)[LOG_STATE_BLOCK := state];
    WalkIsPath(after, FIRST_TAIL, l, start, visited, curr);
    VisitedAreCommitted(after, FIRST_TAIL, l, start, visited);
  }

  lemma EmptyChain(disk: seq<Block>, start: seq<Entry>)
    requires |disk| == TOTAL_BLOCKS
    ensures Chain(disk, FIRST_TAIL, Log(FIRST_TAIL, [], start), start)
  {
  }

  // ---- Which tails load back ----

  lemma TailIsLastPointer(disk: seq<Block>, head: nat, l: Log, start: seq<Entry>)
    requires Chain(disk, head, l, start)
    ensures l.tail == if l.commits == [] then head else Pointer(l.commits[|l.commits| - 1].block)
  {
    hide OnDisk, PathIsNew, Tx, Pointer;
    var n := |l.commits|;
    assert Path(l)[n] == l.tail;
    if n > 0 { assert Path(l)[n - 1 + 1] == Pointer(l.commits[n - 1].block); }
  }

  /** After any proper run the persisted pointers load back if and only if nothing has been
      committed or the last committed block does not point below the first log block; otherwise the
      restart halts.  At run time the pointer is only checked against the end of the disk. */
  lemma LoadsBackIff(disk: seq<Block>, start: seq<Entry>, ranges: seq<Range>, state: Block)
    requires |disk| == TOTAL_BLOCKS && ProperRun(Log(FIRST_TAIL, [], start), ranges)
    requires U32(state, 0) == FIRST_TAIL && U32(state, 4) == RunLog(Log(FIRST_TAIL, [], start), ranges).tail
    ensures
      var l := RunLog(Log(FIRST_TAIL, [], start), ranges);
      if l.commits == [] || Pointer(l.commits[|l.commits| - 1].block) >= FIRST_TAIL then
        LoadLogState(state) == Some((FIRST_TAIL, l.tail))
      else LoadLogState(state) == None
  {
    hide ProperRun, RunLog, Chain, Pointer, Word4;
    EmptyChain(disk, start);
    RunKeepsChain(disk, FIRST_TAIL, Log(FIRST_TAIL, [], start), ranges, start);
    var l := RunLog(Log(FIRST_TAIL, [], start), ranges);
    TailIsLastPointer(RunDisk(disk, ranges), FIRST_TAIL, l, start);
    TailOnDisk(RunDisk(disk, ranges), FIRST_TAIL, l, start);
  }

  lemma TailOnDisk(disk: seq<Block>, head: nat, l: Log, start: seq<Entry>)
    requires Chain(disk, head, l, start)
    ensures l.tail < TOTAL_BLOCKS
  {
  }
}
