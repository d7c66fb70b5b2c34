/** replay_logic.dfy: what a log block does to the entries of all physical blocks, and how long
    a frozen block stays protected. */
module Replay {
  import opened Bytes
  import opened Timelock

  /** TOTAL_DISK_BLOCKS and TOTAL_NUM_METADATA_BLOCKS: 512 entries to a metadata block. */
  const TOTAL_BLOCKS: nat := 2621440
  const MD_BLOCKS: nat := 5120

  datatype Transaction = Transaction(pbas: seq<nat>, keep: u32, now: u32)

  /** One named block.  A missed deadline leaves the state alone; the running gatekeeper halts. */
  function StepAt(s: seq<Entry>, pba: nat, keep: u32, now: u32): (r: seq<Entry>)
    ensures |r| == |s|
  {
    if pba < |s| && ValidDeadline(s[pba], now) then s[pba := Next(s[pba], keep, now)] else s
  }

  /** ExecuteTransactionSeq */
  function Execute(s: seq<Entry>, pbas: seq<nat>, keep: u32, now: u32): (r: seq<Entry>)
    ensures |r| == |s|
    decreases |pbas|
  {
    if pbas == [] then s else Execute(StepAt(s, pbas[0], keep, now), pbas[1..], keep, now)
  }

  function ExecuteTx(s: seq<Entry>, tx: Transaction): (r: seq<Entry>)
    ensures |r| == |s|
  {
    Execute(s, tx.pbas, tx.keep, tx.now)
  }

  /** ReplayLog */
  function ReplayLog(s: seq<Entry>, txs: seq<Transaction>): (r: seq<Entry>)
    ensures |r| == |s|
    decreases |txs|
  {
    if txs == [] then s else ReplayLog(ExecuteTx(s, txs[0]), txs[1..])
  }

  /** No step of the transaction would carry past 2^32, so the gatekeeper does not halt. */
  predicate DeadlinesHold(s: seq<Entry>, pbas: seq<nat>, keep: u32, now: u32)
    decreases |pbas|
  {
    pbas == [] ||
    (pbas[0] < |s| && ValidDeadline(s[pbas[0]], now)
     && DeadlinesHold(StepAt(s, pbas[0], keep, now), pbas[1..], keep, now))
  }

  /** The steps that name p do not overflow. */
  predicate DeadlinesHoldAt(s: seq<Entry>, pbas: seq<nat>, keep: u32, now: u32, p: nat)
    decreases |pbas|
  {
    pbas == [] ||
    ((pbas[0] == p ==> p < |s| && ValidDeadline(s[p], now))
     && DeadlinesHoldAt(StepAt(s, pbas[0], keep, now), pbas[1..], keep, now, p))
  }

  predicate LogRunsAt(s: seq<Entry>, txs: seq<Transaction>, p: nat)
    decreases |txs|
  {
    txs == [] ||
    (DeadlinesHoldAt(s, txs[0].pbas, txs[0].keep, txs[0].now, p) && LogRunsAt(ExecuteTx(s, txs[0]), txs[1..], p))
  }

  lemma {:induction false} DeadlinesHoldEverywhere(s: seq<Entry>, pbas: seq<nat>, keep: u32, now: u32, p: nat)
    requires DeadlinesHold(s, pbas, keep, now)
    ensures DeadlinesHoldAt(s, pbas, keep, now, p)
    decreases |pbas|
  {
    if pbas != [] { DeadlinesHoldEverywhere(StepAt(s, pbas[0], keep, now), pbas[1..], keep, now, p); }
  }

  lemma {:induction false} LogRunsAppend(s: seq<Entry>, txs: seq<Transaction>, tx: Transaction, p: nat)
    ensures LogRunsAt(s, txs + [tx], p) <==>
      LogRunsAt(s, txs, p) && DeadlinesHoldAt(ReplayLog(s, txs), tx.pbas, tx.keep, tx.now, p)
    decreases |txs|
  {
    hide ExecuteTx, DeadlinesHoldAt;
    if txs == [] {
      assert [] + [tx] == [tx];
      assert [tx][1..] == [];
    } else {
      assert (txs + [tx])[1..] == txs[1..] + [tx];
      LogRunsAppend(ExecuteTx(s, txs[0]), txs[1..], tx, p);
    }
  }

  lemma {:induction false} LogRunsConcat(s: seq<Entry>, a: seq<Transaction>, b: seq<Transaction>, p: nat)
    ensures LogRunsAt(s, a + b, p) <==> LogRunsAt(s, a, p) && LogRunsAt(ReplayLog(s, a), b, p)
    ensures ReplayLog(s, a + b) == ReplayLog(ReplayLog(s, a), b)
    decreases |a|
  {
    hide ExecuteTx, DeadlinesHoldAt;
    if a == [] {
      assert [] + b == b;
    } else {
      assert (a + b)[1..] == a[1..] + b;
      LogRunsConcat(ExecuteTx(s, a[0]), a[1..], b, p);
    }
  }

  lemma {:induction false} ExecuteAppend(s: seq<Entry>, pbas: seq<nat>, pba: nat, keep: u32, now: u32)
    ensures Execute(s, pbas + [pba], keep, now) == StepAt(Execute(s, pbas, keep, now), pba, keep, now)
    ensures DeadlinesHold(s, pbas + [pba], keep, now) <==>
      DeadlinesHold(s, pbas, keep, now)
      && pba < |s| && ValidDeadline(Execute(s, pbas, keep, now)[pba], now)
    decreases |pbas|
  {
    hide StepAt;
    if pbas == [] {
      assert [] + [pba] == [pba];
      assert [pba][1..] == [];
    } else {
      assert (pbas + [pba])[1..] == pbas[1..] + [pba];
      ExecuteAppend(StepAt(s, pbas[0], keep, now), pbas[1..], pba, keep, now);
    }
  }

  lemma {:induction false} ReplayAppend(s: seq<Entry>, txs: seq<Transaction>, tx: Transaction)
    ensures ReplayLog(s, txs + [tx]) == ExecuteTx(ReplayLog(s, txs), tx)
    decreases |txs|
  {
    hide ExecuteTx;
    if txs == [] {
      assert [] + [tx] == [tx];
      assert [tx][1..] == [];
    } else {
      assert (txs + [tx])[1..] == txs[1..] + [tx];
      ReplayAppend(ExecuteTx(s, txs[0]), txs[1..], tx);
    }
  }

  // ---- The protected interval ----

  lemma {:induction false} UnnamedStays(s: seq<Entry>, pbas: seq<nat>, keep: u32, now: u32, p: nat)
    requires p < |s| && p !in pbas
    ensures Execute(s, pbas, keep, now)[p] == s[p]
    decreases |pbas|
  {
    if pbas != [] { UnnamedStays(StepAt(s, pbas[0], keep, now), pbas[1..], keep, now, p); }
  }

  lemma {:induction false} CountdownStays(s: seq<Entry>, pbas: seq<nat>, keep: u32, now: u32, p: nat)
    requires p < |s| && IsCountdown(s[p], now)
    ensures Execute(s, pbas, keep, now)[p] == s[p]
    decreases |pbas|
  {
    if pbas != [] { CountdownStays(StepAt(s, pbas[0], keep, now), pbas[1..], keep, now, p); }
  }

  /** The first log block that names a frozen entry starts its countdown, however often it
      names it. */
  lemma {:induction false} NamedStartsCountdown(s: seq<Entry>, pbas: seq<nat>, keep: u32, now: u32, p: nat)
    requires p < |s| && IsFrozen(s[p]) && p in pbas && DeadlinesHoldAt(s, pbas, keep, now, p)
    ensures ValidDeadline(s[p], now)
    ensures Execute(s, pbas, keep, now)[p] == Entry(s[p].keep + now, s[p].time + 1)
    decreases |pbas|
  {
    var s' := StepAt(s, pbas[0], keep, now);
    if pbas[0] == p {
      CountdownStays(s', pbas[1..], keep, now, p);
    } else {
      NamedStartsCountdown(s', pbas[1..], keep, now, p);
    }
  }

  /** The first transaction that names p, or the length of the log. */
  function FirstNaming(txs: seq<Transaction>, p: nat): (i: nat)
    ensures i <= |txs|
    ensures i < |txs| ==> p in txs[i].pbas
  {
    if txs == [] || p in txs[0].pbas then 0 else 1 + FirstNaming(txs[1..], p)
  }

  lemma {:induction false} CountdownStaysInLog(s: seq<Entry>, txs: seq<Transaction>, p: nat)
    requires p < |s| && s[p].time % 2 == 1
    requires forall tx :: tx in txs ==> tx.now <= s[p].keep
    ensures ReplayLog(s, txs)[p] == s[p]
    decreases |txs|
  {
    hide Execute;
    if txs != [] {
      CountdownStays(s, txs[0].pbas, txs[0].keep, txs[0].now, p);
      CountdownStaysInLog(ExecuteTx(s, txs[0]), txs[1..], p);
    }
  }

  /** A block frozen with keep duration k is free at no clock value until a log block, at time t,
      names it; from then on it is free exactly at the clock values past t + k, as long as the
      log carries no time past t + k.  Log blocks that name it meanwhile change nothing. */
  lemma {:induction false} ProtectedInterval(s: seq<Entry>, txs: seq<Transaction>, p: nat)
    requires p < |s| && IsFrozen(s[p]) && LogRunsAt(s, txs, p)
    ensures
      var i, e := FirstNaming(txs, p), ReplayLog(s, txs)[p];
      if i == |txs| then e == s[p] && forall clock: u32 :: !IsFree(e, clock)
      else
        && ValidDeadline(s[p], txs[i].now)
        && var deadline := s[p].keep + txs[i].now;
        (forall tx :: tx in txs[i + 1..] ==> tx.now <= deadline) ==>
          e == Entry(deadline, s[p].time + 1) && forall clock: u32 :: IsFree(e, clock) <==> clock > deadline
    decreases |txs|
  {
    hide Execute, DeadlinesHoldAt;
    if txs != [] {
      var s' := ExecuteTx(s, txs[0]);
      if p in txs[0].pbas {
        NamedStartsCountdown(s, txs[0].pbas, txs[0].keep, txs[0].now, p);
        var deadline := s[p].keep + txs[0].now;
        if forall tx :: tx in txs[1..] ==> tx.now <= deadline {
          CountdownStaysInLog(s', txs[1..], p);
        }
      } else {
        UnnamedStays(s, txs[0].pbas, txs[0].keep, txs[0].now, p);
        ProtectedInterval(s', txs[1..], p);
        var i := FirstNaming(txs[1..], p);
        if i < |txs[1..]| { assert txs[1..][i + 1..] == txs[i + 2..]; }
      }
    }
  }

  /** A log block that names a free block once freezes it, with the keep duration of the log block
      and its time made even; one that names it more often also starts the countdown. */
  lemma {:induction false} NamedWhenFree(s: seq<Entry>, pbas: seq<nat>, keep: u32, now: u32, p: nat)
    requires p < |s| && s[p].time % 2 == 1 && now > s[p].keep && DeadlinesHoldAt(s, pbas, keep, now, p)
    ensures
      var n, e := multiset(pbas)[p], Execute(s, pbas, keep, now)[p];
      if n == 0 then e == s[p]
      else if n == 1 then e.keep == keep && e.time == now - now % 2
      else keep + now < 0x1_0000_0000 && e.keep == keep + now && e.time == now - now % 2 + 1
    decreases |pbas|
  {
    if pbas != [] {
      var s', rest := StepAt(s, pbas[0], keep, now), pbas[1..];
      assert pbas == [pbas[0]] + rest;
      if pbas[0] == p {
        if p in rest {
          NamedStartsCountdown(s', rest, keep, now, p);
        } else {
          UnnamedStays(s', rest, keep, now, p);
        }
      } else {
        NamedWhenFree(s', rest, keep, now, p);
      }
    }
  }

  /** The first transaction past the keep word that names p, or the length of the log. */
  function FirstPast(txs: seq<Transaction>, p: nat, keep: u32): (i: nat)
    ensures i <= |txs|
    ensures i < |txs| ==> p in txs[i].pbas && txs[i].now > keep
    ensures forall j :: 0 <= j < i ==> p !in txs[j].pbas || txs[j].now <= keep
  {
    if txs == [] || (p in txs[0].pbas && txs[0].now > keep) then 0 else 1 + FirstPast(txs[1..], p, keep)
  }

  /** e is what a log block leaves of a block that it names when it is free, and rest of that:
      frozen under the keep duration k of the log block until the next naming at a time t, and then
      free exactly at the clock values past t + k; named more than once, it counts down at once. */
  ghost predicate Protected(e: Entry, tx: Transaction, rest: seq<Transaction>, p: nat) {
    var j := FirstNaming(rest, p);
    var start := tx.now - tx.now % 2;
    if multiset(tx.pbas)[p] == 1 && j == |rest| then
      e.keep == tx.keep && e.time == start && forall clock: u32 :: !IsFree(e, clock)
    else
      var named := if multiset(tx.pbas)[p] == 1 then rest[j] else tx;
      var later := if multiset(tx.pbas)[p] == 1 then rest[j + 1..] else rest;
      && tx.keep + named.now < 0x1_0000_0000
      && ((forall t :: t in later ==> t.now <= tx.keep + named.now) ==>
            && e.keep == tx.keep + named.now && e.time == start + 1
            && forall clock: u32 :: IsFree(e, clock) <==> clock > tx.keep + named.now)
  }

  /** A block that is free past a clock value stays as it is until a log block with a later time
      names it; that log block protects it. */
  lemma {:induction false} ProtectionBegins(s: seq<Entry>, txs: seq<Transaction>, p: nat)
    requires p < |s| && s[p].time % 2 == 1 && LogRunsAt(s, txs, p)
    ensures
      var i, e := FirstPast(txs, p, s[p].keep), ReplayLog(s, txs)[p];
      if i == |txs| then e == s[p] else Protected(e, txs[i], txs[i + 1..], p)
    decreases |txs|
  {
    hide Execute, DeadlinesHoldAt, Protected;
    if txs != [] {
      var tx, rest, s' := txs[0], txs[1..], ExecuteTx(s, txs[0]);
      if tx.now <= s[p].keep || p !in tx.pbas {
        if tx.now <= s[p].keep {
          CountdownStays(s, tx.pbas, tx.keep, tx.now, p);
        } else {
          UnnamedStays(s, tx.pbas, tx.keep, tx.now, p);
        }
        ProtectionBegins(s', rest, p);
        var i := FirstPast(rest, p, s[p].keep);
        if i < |rest| { assert rest[i + 1..] == txs[i + 2..]; }
      } else {
        NamedIsProtected(s, tx, rest, p);
      }
    }
  }

  lemma NamedIsProtected(s: seq<Entry>, tx: Transaction, rest: seq<Transaction>, p: nat)
    requires p < |s| && s[p].time % 2 == 1 && tx.now > s[p].keep && p in tx.pbas
    requires DeadlinesHoldAt(s, tx.pbas, tx.keep, tx.now, p) && LogRunsAt(ExecuteTx(s, tx), rest, p)
    ensures Protected(ReplayLog(ExecuteTx(s, tx), rest)[p], tx, rest, p)
  {
    hide Execute, DeadlinesHoldAt, ReplayLog, LogRunsAt;
    NamedWhenFree(s, tx.pbas, tx.keep, tx.now, p);
    var s' := ExecuteTx(s, tx);
    if multiset(tx.pbas)[p] == 1 {
      ProtectedInterval(s', rest, p);
    } else if forall t :: t in rest ==> t.now <= tx.keep + tx.now {
      CountdownStaysInLog(s', rest, p);
    }
  }

  // ---- Log blocks ----

  /** The words among the first n that name a physical block; the rest are skipped. */
  function LogPbas(log: seq<byte>, o: nat, n: nat): (pbas: seq<nat>)
    requires o + 4 * n <= |log|
    ensures forall p :: p in pbas ==> p < TOTAL_BLOCKS
  {
    if n == 0 then []
    else
      var pba := U32(log, o + 4 * (n - 1));
      LogPbas(log, o, n - 1) + if pba < TOTAL_BLOCKS then [pba] else []
  }

  /** A log block: 1021 addresses, keep duration, time and the address of the next log block. */
  function TxAt(log: seq<byte>, o: nat): Transaction
    requires o + 4096 <= |log|
  {
    Transaction(LogPbas(log, o, 1021), U32(log, o + 4084), U32(log, o + 4088))
  }

  function PointerNext(log: seq<byte>, o: nat): u32
    requires o + 4096 <= |log|
  {
    U32(log, o + 4092)
  }
}
