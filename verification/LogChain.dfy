/** The on-disk chain of log blocks.  A write to the block at the tail is a log block: its
    pointer becomes the new tail and its addresses are executed, before any of the range reaches
    the disk. */
module LogChain {
  import opened Bytes
  import opened Timelock
  import opened Replay

  type Block = b: seq<byte> | |b| == 4096 witness seq(4096, i => 0)

  datatype Commit = Commit(pba: nat, block: Block)

  /** The gatekeeper's tail, the log blocks it has accepted so far and the entries it has executed
      them on. */
  datatype Log = Log(tail: nat, commits: seq<Commit>, entries: seq<Entry>)

  function Tx(b: Block): Transaction { TxAt(b, 0) }

  function Pointer(b: Block): u32 { PointerNext(b, 0) }

  function Txs(commits: seq<Commit>): (txs: seq<Transaction>)
    ensures |txs| == |commits|
  {
    seq(|commits|, i requires 0 <= i < |commits| => Tx(commits[i].block))
  }

  /** One block of a range, as ensure_blocks_free sees it. */
  function CheckBlock(l: Log, pba: nat, b: Block): Log {
    if pba == l.tail then Log(Pointer(b), l.commits + [Commit(pba, b)], ExecuteTx(l.entries, Tx(b))) else l
  }

  function CheckRange(l: Log, pba: nat, blocks: seq<Block>): Log {
    if blocks == [] then l
    else
      var n := |blocks| - 1;
      CheckBlock(CheckRange(l, pba, blocks[..n]), pba + n, blocks[n])
  }

  /** A range is searched upwards for the tail.  If the tail lies in it, the block there is committed,
      moves the tail to where it points and is executed, and the search goes on behind it; otherwise
      nothing is done. */
  lemma {:induction false} TailIsTaken(l: Log, pba: nat, blocks: seq<Block>)
    ensures CheckRange(l, pba, blocks) ==
      if pba <= l.tail < pba + |blocks| then
        var b := blocks[l.tail - pba];
        CheckRange(Log(PointerNext(b, 0), l.commits + [Commit(l.tail, b)], ExecuteTx(l.entries, TxAt(b, 0))),
                   l.tail + 1, blocks[l.tail - pba + 1..])
      else l
    decreases |blocks|
  {
    hide ExecuteTx, LogPbas, Word4;
    if blocks != [] {
      var n := |blocks| - 1;
      TailIsTaken(l, pba, blocks[..n]);
      if pba <= l.tail < pba + |blocks| {
        var i, rest := l.tail - pba, blocks[l.tail - pba + 1..];
        if i == n {
          assert rest == [];
        } else {
          assert rest[..|rest| - 1] == blocks[..n][i + 1..];
        }
      }
    }
  }

  /** DiskOps.write_blocks, once the whole range has passed. */
  function WriteRange(disk: seq<Block>, pba: nat, blocks: seq<Block>): (r: seq<Block>)
    requires pba + |blocks| <= |disk|
    ensures |r| == |disk|
  {
    disk[..pba] + blocks + disk[pba + |blocks|..]
  }

  // ---- Ranges one after the other ----

  datatype Range = Range(pba: nat, blocks: seq<Block>)

  ghost predicate Fit(ranges: seq<Range>) {
    forall i :: 0 <= i < |ranges| ==> ranges[i].pba + |ranges[i].blocks| <= TOTAL_BLOCKS
  }

  function RunLog(l: Log, ranges: seq<Range>): Log {
    if ranges == [] then l
    else
      var n := |ranges| - 1;
      CheckRange(RunLog(l, ranges[..n]), ranges[n].pba, ranges[n].blocks)
  }

  ghost function RunDisk(disk: seq<Block>, ranges: seq<Range>): (r: seq<Block>)
    requires |disk| == TOTAL_BLOCKS && Fit(ranges)
    ensures |r| == TOTAL_BLOCKS
  {
    if ranges == [] then disk
    else
      var n := |ranges| - 1;
      WriteRange(RunDisk(disk, ranges[..n]), ranges[n].pba, ranges[n].blocks)
  }

  predicate Covers(r: Range, q: nat) { r.pba <= q < r.pba + |r.blocks| }

  lemma {:induction false} UnwrittenStays(disk: seq<Block>, ranges: seq<Range>, q: nat)
    requires |disk| == TOTAL_BLOCKS && Fit(ranges) && q < TOTAL_BLOCKS
    requires forall i :: 0 <= i < |ranges| ==> !Covers(ranges[i], q)
    ensures RunDisk(disk, ranges)[q] == disk[q]
    decreases |ranges|
  {
    hide WriteRange;
    if ranges != [] {
      var most, r := ranges[..|ranges| - 1], ranges[|ranges| - 1];
      UnwrittenStays(disk, most, q);
      WrittenAt(RunDisk(disk, most), r, q);
    }
  }

  /** Every block of the disk is the last one that the ranges write there. */
  lemma {:induction false} DiskHoldsLastWrite(disk: seq<Block>, ranges: seq<Range>, q: nat, i: nat)
    requires |disk| == TOTAL_BLOCKS && Fit(ranges) && q < TOTAL_BLOCKS
    requires i < |ranges| && Covers(ranges[i], q) && forall j :: i < j < |ranges| ==> !Covers(ranges[j], q)
    ensures RunDisk(disk, ranges)[q] == ranges[i].blocks[q - ranges[i].pba]
    decreases |ranges|
  {
    hide WriteRange;
    var most, r := ranges[..|ranges| - 1], ranges[|ranges| - 1];
    if i < |most| { DiskHoldsLastWrite(disk, most, q, i); }
    WrittenAt(RunDisk(disk, most), r, q);
  }

  lemma WrittenAt(disk: seq<Block>, r: Range, q: nat)
    requires |disk| == TOTAL_BLOCKS && r.pba + |r.blocks| <= |disk| && q < |disk|
    ensures WriteRange(disk, r.pba, r.blocks)[q] == if Covers(r, q) then r.blocks[q - r.pba] else disk[q]
  {
  }

  // ---- The chain on disk ----

  /** The addresses of the chain: the committed log blocks, then the tail. */
  function Path(l: Log): (path: seq<nat>)
    ensures |path| == |l.commits| + 1
  {
    seq(|l.commits|, i requires 0 <= i < |l.commits| => l.commits[i].pba) + [l.tail]
  }

  /** Each pointer leads to a block not on the chain yet. */
  ghost predicate PathIsNew(l: Log) {
    forall i, j :: 0 <= i < j <= |l.commits| ==> Path(l)[i] != Path(l)[j]
  }

  /** Each committed block points at the next address of the chain. */
  ghost predicate Linked(head: nat, l: Log) {
    && Path(l)[0] == head
    && forall i :: 0 <= i < |l.commits| ==> Path(l)[i + 1] == Pointer(l.commits[i].block)
  }

  ghost predicate OnDisk(disk: seq<Block>, l: Log) {
    forall i :: 0 <= i < |l.commits| ==> l.commits[i].pba < |disk| && disk[l.commits[i].pba] == l.commits[i].block
  }

  /** What the gatekeeper's log state and the disk agree on between requests. */
  ghost predicate Chain(disk: seq<Block>, head: nat, l: Log, start: seq<Entry>) {
    && |disk| == TOTAL_BLOCKS && l.tail < TOTAL_BLOCKS
    && Linked(head, l) && OnDisk(disk, l) && PathIsNew(l)
    && l.entries == ReplayLog(start, Txs(l.commits))
  }

  // ---- Accepting a range ----

  /** The committed log blocks grow at the end only. */
  lemma {:induction false} CommitsGrow(l: Log, pba: nat, blocks: seq<Block>)
    ensures
      var r := CheckRange(l, pba, blocks);
      && |l.commits| <= |r.commits| && r.commits[..|l.commits|] == l.commits
      && forall k :: |l.commits| <= k < |r.commits| ==>
        pba <= r.commits[k].pba < pba + |blocks| && r.commits[k].block == blocks[r.commits[k].pba - pba]
    decreases |blocks|
  {
    hide Tx, Pointer, ExecuteTx;
    if blocks != [] { CommitsGrow(l, pba, blocks[..|blocks| - 1]); }
  }

  lemma TxsAppend(commits: seq<Commit>, c: Commit)
    ensures Txs(commits + [c]) == Txs(commits) + [Tx(c.block)]
  {
  }

  lemma {:induction false} RangeKeepsLinked(head: nat, l: Log, pba: nat, blocks: seq<Block>, start: seq<Entry>)
    requires Linked(head, l) && l.entries == ReplayLog(start, Txs(l.commits))
    ensures
      var r := CheckRange(l, pba, blocks);
      Linked(head, r) && r.entries == ReplayLog(start, Txs(r.commits))
    decreases |blocks|
  {
    hide Tx, Pointer, ExecuteTx, Txs;
    if blocks != [] {
      var n := |blocks| - 1;
      var most := CheckRange(l, pba, blocks[..n]);
      RangeKeepsLinked(head, l, pba, blocks[..n], start);
      if pba + n == most.tail {
        TxsAppend(most.commits, Commit(pba + n, blocks[n]));
        ReplayAppend(start, Txs(most.commits), Tx(blocks[n]));
        LinkMore(head, most, pba + n, blocks[n]);
      }
    }
  }

  lemma LinkMore(head: nat, l: Log, pba: nat, b: Block)
    requires Linked(head, l) && pba == l.tail
    ensures Linked(head, CheckBlock(l, pba, b))
  {
    hide Tx, Pointer, ExecuteTx;
    var r := CheckBlock(l, pba, b);
    assert forall i :: 0 <= i <= |l.commits| ==> Path(r)[i] == Path(l)[i];
  }

  /** No committed log block lies in the range. */
  ghost predicate Spares(l: Log, pba: nat, n: nat) {
    forall i :: 0 <= i < |l.commits| ==> !(pba <= l.commits[i].pba < pba + n)
  }

  /** An accepted range keeps the chain whole, when it rewrites no committed log block and its
      pointers are new to the chain. */
  lemma RangeKeepsChain(disk: seq<Block>, head: nat, l: Log, pba: nat, blocks: seq<Block>, start: seq<Entry>)
    requires Chain(disk, head, l, start) && pba + |blocks| <= TOTAL_BLOCKS
    requires Spares(l, pba, |blocks|)
    requires
      var r := CheckRange(l, pba, blocks);
      PathIsNew(r) && r.tail < TOTAL_BLOCKS
    ensures Chain(WriteRange(disk, pba, blocks), head, CheckRange(l, pba, blocks), start)
  {
    hide Tx, Pointer, ExecuteTx, CheckRange, PathIsNew;
    var r, disk' := CheckRange(l, pba, blocks), WriteRange(disk, pba, blocks);
    CommitsGrow(l, pba, blocks);
    RangeKeepsLinked(head, l, pba, blocks, start);
    forall i | 0 <= i < |r.commits|
      ensures r.commits[i].pba < |disk'| && disk'[r.commits[i].pba] == r.commits[i].block
    {
      if i < |l.commits| { assert r.commits[..|l.commits|][i] == l.commits[i]; }
    }
  }
}
