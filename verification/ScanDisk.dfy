/** scan_disk: the mapping and the free list are rebuilt from the chain of version logs, up to a
    recovery timestamp or, with timestamp 0, to its end. */
module ScanDisk {
  import Replay
  import Timelock
  import opened LogPacking
  import opened Collections

  /** A version log block. */
  datatype VersionBlock = VersionBlock(entries: seq<Entry>, seed: nat, ptr: nat)

  /** 2621440 blocks, physical and logical; the all-ones sentinel is out of range as well. */
  predicate InBounds(e: Entry) { e.lba < Replay.TOTAL_BLOCKS && e.pba < Replay.TOTAL_BLOCKS }

  function Proper(entries: seq<Entry>): (r: seq<Entry>)
    ensures forall i :: 0 <= i < |r| ==> InBounds(r[i])
  {
    if entries == [] then []
    else Proper(entries[..|entries| - 1]) + if InBounds(entries[|entries| - 1]) then [entries[|entries| - 1]] else []
  }

  lemma ProperAppend(entries: seq<Entry>, e: Entry)
    ensures Proper(entries + [e]) == Proper(entries) + if InBounds(e) then [e] else []
  {
    assert (entries + [e])[..|entries|] == entries;
  }

  /** The entries of a block count towards the mapping at recovery time t.  A block with the initial
      timelock entry was never reconstructed from a timelock log. */
  predicate Counts(md: Timelock.Entry, t: nat) { t == 0 || (!(md.keep == 0 && md.time == 1) && md.time <= t) }

  /** The addresses of a block are kept off the free list. */
  predicate Marks(md: Timelock.Entry, t: nat) { t == 0 || !(md.keep == 0 && md.time == 1) }

  // ---- The mapping: the last entry for a logical block wins ----

  function Fold(l2p: map<nat, nat>, entries: seq<Entry>): map<nat, nat> {
    if entries == [] then l2p
    else Fold(l2p, entries[..|entries| - 1])[entries[|entries| - 1].lba := entries[|entries| - 1].pba]
  }

  lemma FoldAppend(l2p: map<nat, nat>, entries: seq<Entry>, e: Entry)
    ensures Fold(l2p, entries + [e]) == Fold(l2p, entries)[e.lba := e.pba]
  {
    assert (entries + [e])[..|entries|] == entries;
  }

  lemma {:induction false} FoldConcat(l2p: map<nat, nat>, a: seq<Entry>, b: seq<Entry>)
    ensures Fold(l2p, a + b) == Fold(Fold(l2p, a), b)
    decreases |b|
  {
    if b == [] {
      assert a + [] == a;
    } else {
      var most, last := b[..|b| - 1], b[|b| - 1];
      assert a + b == (a + most) + [last] && b == most + [last];
      FoldConcat(l2p, a, most);
      FoldAppend(l2p, a + most, last);
      FoldAppend(Fold(l2p, a), most, last);
    }
  }

  /** Entry i names lba and no later entry does. */
  ghost predicate LastFor(entries: seq<Entry>, lba: nat, i: nat) {
    i < |entries| && entries[i].lba == lba && forall j :: i < j < |entries| ==> entries[j].lba != lba
  }

  lemma {:induction false} LastWriterWins(entries: seq<Entry>, lba: nat)
    ensures lba in Fold(map[], entries) <==> exists i :: 0 <= i < |entries| && entries[i].lba == lba
    ensures lba in Fold(map[], entries) ==>
      exists i: nat :: LastFor(entries, lba, i) && Fold(map[], entries)[lba] == entries[i].pba
    decreases |entries|
  {
    if entries != [] {
      var most, n := entries[..|entries| - 1], |entries| - 1;
      LastWriterWins(most, lba);
      assert forall i :: 0 <= i < n ==> most[i] == entries[i];
      if entries[n].lba == lba {
        assert LastFor(entries, lba, n);
      } else if lba in Fold(map[], most) {
        var i: nat :| LastFor(most, lba, i) && Fold(map[], most)[lba] == most[i].pba;
        assert LastFor(entries, lba, i);
      }
    }
  }

  lemma {:induction false} FoldValues(entries: seq<Entry>, lba: nat) returns (i: nat)
    requires lba in Fold(map[], entries)
    ensures i < |entries| && entries[i].pba == Fold(map[], entries)[lba]
  {
    LastWriterWins(entries, lba);
    i :| LastFor(entries, lba, i) && Fold(map[], entries)[lba] == entries[i].pba;
  }

  // ---- The chain ----

  type Disk = nat -> VersionBlock

  /** chain is what the scan reads from start on.  The accepted blocks, all but the last, carry the
      first one's seed, which is not 0, and each points at the next block; the last block carries seed
      0 or another seed, or points off the disk. */
  ghost predicate ChainFrom(disk: Disk, start: nat, chain: seq<nat>) {
    && |chain| > 0 && chain[0] == start < Replay.TOTAL_BLOCKS
    && (forall i: nat :: i + 1 < |chain| ==> LeadsOn(disk, start, chain, i))
    && var last := disk(chain[|chain| - 1]);
    last.seed == 0 || last.seed != disk(start).seed || last.ptr >= Replay.TOTAL_BLOCKS
  }

  /** Block i of the chain carries the seed of the first block and points at the next one. */
  ghost predicate LeadsOn(disk: Disk, start: nat, chain: seq<nat>, i: nat)
    requires i + 1 < |chain|
  {
    && disk(chain[i]).seed == disk(start).seed && disk(chain[i]).seed != 0
    && disk(chain[i]).ptr == chain[i + 1] && chain[i + 1] < Replay.TOTAL_BLOCKS
  }

  lemma Accepted(disk: Disk, start: nat, chain: seq<nat>, i: nat)
    requires ChainFrom(disk, start, chain) && i + 1 < |chain|
    ensures disk(chain[i]).seed == disk(start).seed && disk(chain[i]).seed != 0
    ensures disk(chain[i]).ptr == chain[i + 1] && chain[i + 1] < Replay.TOTAL_BLOCKS
  {
    assert LeadsOn(disk, start, chain, i);
  }

  /** Disk and start decide the chain. */
  lemma {:induction false} ChainIsUnique(disk: Disk, start: nat, a: seq<nat>, b: seq<nat>)
    requires ChainFrom(disk, start, a) && ChainFrom(disk, start, b)
    ensures a == b
  {
    var k := 0;
    while k + 1 < |a| && k + 1 < |b|
      invariant k < |a| && k < |b| && a[..k + 1] == b[..k + 1]
    {
      assert a[k] == a[..k + 1][k] == b[..k + 1][k] == b[k];
      Accepted(disk, start, a, k);
      Accepted(disk, start, b, k);
      k := k + 1;
      assert a[..k + 1] == a[..k] + [a[k]] && b[..k + 1] == b[..k] + [b[k]];
    }
    assert a[k] == a[..k + 1][k] == b[..k + 1][k] == b[k];
    if k + 1 < |b| { Accepted(disk, start, b, k); }
    if k + 1 < |a| { Accepted(disk, start, a, k); }
    assert a[..|a|] == a && b[..|b|] == b;
  }

  /** The entries of the accepted blocks that count, in chain order. */
  ghost function Counted(disk: Disk, md: nat -> Timelock.Entry, chain: seq<nat>, k: nat, t: nat): seq<Entry>
    requires k <= |chain|
  {
    if k == 0 then []
    else
      Counted(disk, md, chain, k - 1, t)
      + if Counts(md(chain[k - 1]), t) then Proper(disk(chain[k - 1]).entries) else []
  }

  /** The entries of the accepted blocks whose addresses are kept off the free list. */
  ghost function Marked(disk: Disk, md: nat -> Timelock.Entry, chain: seq<nat>, k: nat, t: nat): seq<Entry>
    requires k <= |chain|
  {
    if k == 0 then []
    else
      Marked(disk, md, chain, k - 1, t)
      + if Marks(md(chain[k - 1]), t) then Proper(disk(chain[k - 1]).entries) else []
  }

  ghost predicate Names(entries: seq<Entry>, pba: nat) { exists i :: 0 <= i < |entries| && entries[i].pba == pba }

  lemma NamesAppend(entries: seq<Entry>, more: seq<Entry>, pba: nat)
    ensures Names(entries + more, pba) <==> Names(entries, pba) || Names(more, pba)
  {
    var all := entries + more;
    if Names(entries, pba) {
      var i :| 0 <= i < |entries| && entries[i].pba == pba;
      assert all[i].pba == pba;
    }
    if Names(more, pba) {
      var i :| 0 <= i < |more| && more[i].pba == pba;
      assert all[|entries| + i].pba == pba;
    }
  }

  /** What counts is marked. */
  lemma {:induction false} CountedIsMarked(disk: Disk, md: nat -> Timelock.Entry, chain: seq<nat>, k: nat, t: nat,
                                           pba: nat)
    requires k <= |chain| && Names(Counted(disk, md, chain, k, t), pba)
    ensures Names(Marked(disk, md, chain, k, t), pba)
    decreases k
  {
    if k > 0 {
      var more := Proper(disk(chain[k - 1]).entries);
      var some: seq<Entry> := if Counts(md(chain[k - 1]), t) then more else [];
      var rest: seq<Entry> := if Marks(md(chain[k - 1]), t) then more else [];
      NamesAppend(Counted(disk, md, chain, k - 1, t), some, pba);
      NamesAppend(Marked(disk, md, chain, k - 1, t), rest, pba);
      if Names(Counted(disk, md, chain, k - 1, t), pba) { CountedIsMarked(disk, md, chain, k - 1, t, pba); }
    }
  }

  /** Entry i of the j-th accepted block maps lba at recovery time t: both its addresses are on the
      disk, and with a recovery time the block has been initialised by then. */
  ghost predicate TakesPart(disk: Disk, md: nat -> Timelock.Entry, chain: seq<nat>, t: nat, j: nat, i: nat, lba: nat)
    requires j < |chain|
  {
    && i < |disk(chain[j]).entries|
    && var e := disk(chain[j]).entries[i];
    && e.lba == lba < Replay.TOTAL_BLOCKS && e.pba < Replay.TOTAL_BLOCKS
    && (t == 0 || (!(md(chain[j]).keep == 0 && md(chain[j]).time == 1) && md(chain[j]).time <= t))
  }

  /** No entry after i in block j, nor in the blocks after it up to k, maps lba. */
  ghost predicate NoneLater(disk: Disk, md: nat -> Timelock.Entry, chain: seq<nat>, t: nat, k: nat, j: nat, i: nat,
                            lba: nat)
    requires k <= |chain|
  {
    forall y: nat, x: nat :: y < k && TakesPart(disk, md, chain, t, y, x, lba) ==> y < j || (y == j && x <= i)
  }

  /** The mapping over one block: the last entry on the disk that names lba, else what it was. */
  lemma {:induction false} FoldProper(l2p: map<nat, nat>, entries: seq<Entry>, lba: nat)
    ensures
      var after := Fold(l2p, Proper(entries));
      if NoneMaps(entries, lba) then
        (lba in after <==> lba in l2p) && (lba in l2p ==> after[lba] == l2p[lba])
      else
        && lba in after
        && forall i: nat :: LastToMap(entries, lba, i) ==> after[lba] == entries[i].pba
    decreases |entries|
  {
    if entries != [] {
      var n := |entries| - 1;
      var most, e := entries[..n], entries[n];
      assert entries == most + [e];
      FoldProper(l2p, most, lba);
      ProperAppend(most, e);
      if InBounds(e) { FoldAppend(l2p, Proper(most), e); } else { assert Proper(most) + [] == Proper(most); }
    }
  }

  predicate Maps(e: Entry, lba: nat) { e.lba == lba < Replay.TOTAL_BLOCKS && e.pba < Replay.TOTAL_BLOCKS }

  predicate NoneMaps(entries: seq<Entry>, lba: nat) { forall i :: 0 <= i < |entries| ==> !Maps(entries[i], lba) }

  predicate LastToMap(entries: seq<Entry>, lba: nat, i: nat) {
    i < |entries| && Maps(entries[i], lba) && forall x :: i < x < |entries| ==> !Maps(entries[x], lba)
  }

  /** The mapping that the first k accepted blocks rebuild. */
  ghost function Rebuilt(disk: Disk, md: nat -> Timelock.Entry, chain: seq<nat>, k: nat, t: nat): map<nat, nat>
    requires k <= |chain|
  {
    Fold(map[], Counted(disk, md, chain, k, t))
  }

  lemma BlockRebuilds(disk: Disk, md: nat -> Timelock.Entry, chain: seq<nat>, k: nat, t: nat)
    requires k < |chain|
    ensures
      var before, after := Rebuilt(disk, md, chain, k, t), Rebuilt(disk, md, chain, k + 1, t);
      after == if Counts(md(chain[k]), t) then Fold(before, Proper(disk(chain[k]).entries)) else before
  {
    hide Fold, Proper, Counts;
    NextCounted(disk, md, chain, k, t);
    NothingYet(Rebuilt(disk, md, chain, k, t));
  }

  /** Some entry of the first k accepted blocks maps lba. */
  ghost predicate SomePart(disk: Disk, md: nat -> Timelock.Entry, chain: seq<nat>, t: nat, k: nat, lba: nat)
    requires k <= |chain|
  {
    exists j: nat, i: nat :: j < k && TakesPart(disk, md, chain, t, j, i, lba)
  }

  /** The last entry to name lba: entry i of block j takes part, none after it does. */
  ghost predicate LastIn(disk: Disk, md: nat -> Timelock.Entry, chain: seq<nat>, t: nat, k: nat, j: nat, i: nat,
                         lba: nat)
    requires k <= |chain|
  {
    j < k && TakesPart(disk, md, chain, t, j, i, lba) && NoneLater(disk, md, chain, t, k, j, i, lba)
  }

  /** A logical block is mapped exactly if an entry of an accepted block takes part that names it, and
      then to the address in the last such entry of the last such block. */
  lemma {:induction false} MappedIff(disk: Disk, md: nat -> Timelock.Entry, chain: seq<nat>, k: nat, t: nat, lba: nat)
    requires k <= |chain|
    ensures lba in Rebuilt(disk, md, chain, k, t) <==> SomePart(disk, md, chain, t, k, lba)
    ensures forall j: nat, i: nat :: LastIn(disk, md, chain, t, k, j, i, lba) ==>
      lba in Rebuilt(disk, md, chain, k, t)
      && Rebuilt(disk, md, chain, k, t)[lba] == disk(chain[j]).entries[i].pba
    decreases k
  {
    hide Rebuilt, Fold, Proper, LastIn, SomePart, Counts, NoneMaps, LastToMap;
    var m := Rebuilt(disk, md, chain, k, t);
    if k == 0 {
      NothingRebuilt(disk, md, chain, t, lba);
    } else {
      var n := k - 1;
      var entries, before := disk(chain[n]).entries, Rebuilt(disk, md, chain, n, t);
      MappedIff(disk, md, chain, n, t, lba);
      BlockRebuilds(disk, md, chain, n, t);
      FoldProper(before, entries, lba);
      PartInBlock(disk, md, chain, t, n, lba, entries);
      forall j: nat, i: nat | LastIn(disk, md, chain, t, k, j, i, lba)
        ensures j < |chain| && i < |disk(chain[j]).entries|
        ensures lba in m && m[lba] == disk(chain[j]).entries[i].pba
      {
        LastOfOne(disk, md, chain, t, k, j, i, lba, entries);
      }
    }
  }

  lemma PartInBlock(disk: Disk, md: nat -> Timelock.Entry, chain: seq<nat>, t: nat, j: nat, lba: nat,
                    entries: seq<Entry>)
    requires j < |chain| && entries == disk(chain[j]).entries
    ensures SomePart(disk, md, chain, t, j + 1, lba) <==>
      SomePart(disk, md, chain, t, j, lba) || (Counts(md(chain[j]), t) && !NoneMaps(entries, lba))
  {
    if Counts(md(chain[j]), t) && !NoneMaps(entries, lba) {
      var i: nat :| i < |entries| && Maps(entries[i], lba);
      assert TakesPart(disk, md, chain, t, j, i, lba);
    }
    if y: nat, x: nat :| y < j + 1 && TakesPart(disk, md, chain, t, y, x, lba) {
      if y == j { assert Maps(entries[x], lba); }
    }
  }

  lemma NothingRebuilt(disk: Disk, md: nat -> Timelock.Entry, chain: seq<nat>, t: nat, lba: nat)
    ensures Rebuilt(disk, md, chain, 0, t) == map[] && !SomePart(disk, md, chain, t, 0, lba)
    ensures forall j: nat, i: nat :: !LastIn(disk, md, chain, t, 0, j, i, lba)
  {
  }

  /** Either the last entry lies in the last block, or no entry of that block takes part. */
  lemma LastOfOne(disk: Disk, md: nat -> Timelock.Entry, chain: seq<nat>, t: nat, k: nat, j: nat, i: nat, lba: nat,
                  entries: seq<Entry>)
    requires 0 < k <= |chain| && LastIn(disk, md, chain, t, k, j, i, lba) && entries == disk(chain[k - 1]).entries
    ensures j < k && i < |disk(chain[j]).entries|
    ensures j == k - 1 ==> Counts(md(chain[j]), t) && !NoneMaps(entries, lba) && LastToMap(entries, lba, i)
    ensures j < k - 1 ==> LastIn(disk, md, chain, t, k - 1, j, i, lba)
    ensures j < k - 1 && Counts(md(chain[k - 1]), t) ==> NoneMaps(entries, lba)
  {
    forall x: nat | x < |entries| && Counts(md(chain[k - 1]), t) && (j < k - 1 || i < x)
      ensures !Maps(entries[x], lba)
    {
      assert !TakesPart(disk, md, chain, t, k - 1, x, lba);
    }
  }

  /** Entry i of the j-th accepted block keeps address p off the free list: it is on the disk, and with
      a recovery time the block has been initialised, be it too late. */
  ghost predicate Keeps(disk: Disk, md: nat -> Timelock.Entry, chain: seq<nat>, t: nat, j: nat, i: nat, p: nat)
    requires j < |chain|
  {
    && i < |disk(chain[j]).entries|
    && var e := disk(chain[j]).entries[i];
    && e.pba == p < Replay.TOTAL_BLOCKS && e.lba < Replay.TOTAL_BLOCKS
    && (t == 0 || !(md(chain[j]).keep == 0 && md(chain[j]).time == 1))
  }

  ghost predicate SomeKept(disk: Disk, md: nat -> Timelock.Entry, chain: seq<nat>, t: nat, k: nat, p: nat)
    requires k <= |chain|
  {
    exists j: nat, i: nat :: j < k && Keeps(disk, md, chain, t, j, i, p)
  }

  /** An address is kept off the free list exactly if such an entry of an accepted block names it. */
  lemma {:induction false} MarkedIff(disk: Disk, md: nat -> Timelock.Entry, chain: seq<nat>, k: nat, t: nat, p: nat)
    requires k <= |chain|
    ensures Names(Marked(disk, md, chain, k, t), p) <==> SomeKept(disk, md, chain, t, k, p)
    decreases k
  {
    hide SomeKept, Names, Proper, Marks;
    NothingYet(map[]);
    if k == 0 {
      NothingKept(disk, md, chain, t, p);
    } else {
      var n, entries := k - 1, disk(chain[k - 1]).entries;
      var more: seq<Entry> := if Marks(md(chain[n]), t) then Proper(entries) else [];
      MarkedIff(disk, md, chain, n, t, p);
      NamesAppend(Marked(disk, md, chain, n, t), more, p);
      KeptInBlock(disk, md, chain, t, n, p, entries);
    }
  }

  lemma KeptInBlock(disk: Disk, md: nat -> Timelock.Entry, chain: seq<nat>, t: nat, j: nat, p: nat,
                    entries: seq<Entry>)
    requires j < |chain| && entries == disk(chain[j]).entries
    ensures SomeKept(disk, md, chain, t, j + 1, p) <==>
      SomeKept(disk, md, chain, t, j, p) || (Marks(md(chain[j]), t) && Names(Proper(entries), p))
  {
    hide Names, Proper;
    ProperNames(entries, p);
    if Marks(md(chain[j]), t) && Names(Proper(entries), p) {
      var i: nat :| i < |entries| && InBounds(entries[i]) && entries[i].pba == p;
      assert Keeps(disk, md, chain, t, j, i, p);
    }
    if y: nat, x: nat :| y < j + 1 && Keeps(disk, md, chain, t, y, x, p) {
      if y == j { assert InBounds(entries[x]); }
    }
  }

  lemma NothingKept(disk: Disk, md: nat -> Timelock.Entry, chain: seq<nat>, t: nat, p: nat)
    ensures Marked(disk, md, chain, 0, t) == [] && !SomeKept(disk, md, chain, t, 0, p)
  {
  }

  lemma {:induction false} ProperNames(entries: seq<Entry>, p: nat)
    ensures Names(Proper(entries), p) <==>
      exists i: nat :: i < |entries| && InBounds(entries[i]) && entries[i].pba == p
    decreases |entries|
  {
    if entries != [] {
      var n := |entries| - 1;
      var most, e := entries[..n], entries[n];
      assert entries == most + [e];
      ProperNames(most, p);
      ProperAppend(most, e);
      if InBounds(e) { OneMoreName(Proper(most), e); } else { assert Proper(most) + [] == Proper(most); }
      assert forall i: nat :: i < n ==> most[i] == entries[i];
    }
  }

  // ---- The scan ----

  class Scanner {
    var l2p: map<nat, nat>
    /** mark_free_blocks */
    const free: array<bool>
    var currentVmd: nat
    var currentSeed: nat

    /** parse_metadata with t == 0, parse_metadata_recovery otherwise. */
    method ParseBlock(md: Timelock.Entry, b: VersionBlock, t: nat)
      requires free.Length == Replay.TOTAL_BLOCKS
      modifies this`l2p, free
      ensures l2p == Fold(old(l2p), if Counts(md, t) then Proper(b.entries) else [])
      ensures forall p :: 0 <= p < Replay.TOTAL_BLOCKS ==>
        (free[p] <==> old(free[p]) && !(Marks(md, t) && Names(Proper(b.entries), p)))
    {
      hide Fold, Names, Proper, InBounds;
      NothingYet(l2p);
      if t != 0 && md.keep == 0 && md.time == 1 { return; }
      var i := 0;
      assert b.entries[..0] == [];
      while i < |b.entries|
        invariant i <= |b.entries|
        invariant l2p == Fold(old(l2p), if Counts(md, t) then Proper(b.entries[..i]) else [])
        invariant forall p :: 0 <= p < Replay.TOTAL_BLOCKS ==>
          (free[p] <==> old(free[p]) && !Names(Proper(b.entries[..i]), p))
      {
        var e := b.entries[i];
        ghost var seen := b.entries[..i];
        assert b.entries[..i + 1] == seen + [e];
        ProperAppend(seen, e);
        i := i + 1;
        if InBounds(e) {
          BoundsOf(e);
          OneMoreName(Proper(seen), e);
          free[e.pba] := false;
          if t == 0 || md.time <= t {
            FoldAppend(old(l2p), Proper(seen), e);
            l2p := l2p[e.lba := e.pba];
          }
        } else {
          assert Proper(seen) + [] == Proper(seen);
        }
      }
      assert b.entries[..i] == b.entries;
    }

    /** The pointer chase of scan_disk over a chain that ends. */
    method Chase(disk: Disk, md: nat -> Timelock.Entry, t: nat, ghost chain: seq<nat>)
      requires free.Length == Replay.TOTAL_BLOCKS && l2p == map[] && ChainFrom(disk, currentVmd, chain)
      modifies this`l2p, this`currentVmd, this`currentSeed, free
      ensures l2p == Rebuilt(disk, md, chain, |chain| - 1, t) && currentVmd == chain[|chain| - 1]
      ensures currentSeed == if |chain| > 1 then disk(chain[0]).seed else old(currentSeed)
      ensures forall p :: 0 <= p < Replay.TOTAL_BLOCKS ==>
        (free[p] <==> old(free[p]) && p !in chain && !Names(Marked(disk, md, chain, |chain| - 1, t), p))
    {
      hide Fold, Names, Proper, Counts, Marks;
      NothingYet(l2p);
      ghost var k, start := 0, currentVmd;
      free[currentVmd] := false;
      var range, first := currentVmd, true;
      while true
        invariant k < |chain| && range == currentVmd == chain[k] && (first <==> k == 0)
        invariant currentSeed == if k > 0 then disk(start).seed else old(currentSeed)
        invariant l2p == Fold(map[], Counted(disk, md, chain, k, t))
        invariant forall p :: 0 <= p < Replay.TOTAL_BLOCKS ==>
          (free[p] <==> old(free[p]) && p !in chain[..k + 1] && !Names(Marked(disk, md, chain, k, t), p))
        decreases |chain| - k
      {
        var b := disk(range);
        if (currentSeed != b.seed && !first) || b.seed == 0 { break; }
        if b.ptr >= Replay.TOTAL_BLOCKS { break; }
        NotAtEnd(disk, start, chain, k);
        currentVmd := b.ptr;
        ParseBlock(md(range), b, t);
        NextCounted(disk, md, chain, k, t);
        first := false;
        currentSeed := b.seed;
        free[b.ptr] := false;
        range := b.ptr;
        k := k + 1;
        assert chain[..k + 1] == chain[..k] + [chain[k]];
      }
      EndOfChain(disk, start, chain, k);
      assert chain[..k + 1] == chain;
    }

    /** The last loop of scan_disk: the free list in ascending order. */
    method BuildFreelist() returns (list: seq<nat>)
      requires free.Length == Replay.TOTAL_BLOCKS
      ensures forall p: nat :: p in list <==> p < Replay.TOTAL_BLOCKS && free[p]
      ensures forall i, j :: 0 <= i < j < |list| ==> list[i] < list[j]
    {
      list := [];
      var i := 0;
      while i < Replay.TOTAL_BLOCKS
        invariant i <= Replay.TOTAL_BLOCKS
        invariant forall p: nat :: p in list <==> p < i && free[p]
        invariant forall a, b :: 0 <= a < b < |list| ==> list[a] < list[b]
      {
        if free[i] {
          assert forall a :: 0 <= a < |list| ==> list[a] in list;
          list := list + [i];
        }
        i := i + 1;
      }
    }

    /** scan_disk.  No address on the rebuilt free list is mapped, lies on the version chain, or is
        a bootstrap log block; the list is what the allocator needs. */
    method Scan(disk: Disk, md: nat -> Timelock.Entry, t: nat, ghost chain: seq<nat>) returns (list: seq<nat>)
      requires free.Length == Replay.TOTAL_BLOCKS && l2p == map[] && ChainFrom(disk, currentVmd, chain)
      modifies this`l2p, this`currentVmd, this`currentSeed, free
      ensures l2p == Rebuilt(disk, md, chain, |chain| - 1, t) && currentVmd == chain[|chain| - 1]
      ensures currentSeed == if |chain| > 1 then disk(chain[0]).seed else old(currentSeed)
      ensures forall p: nat :: p in list <==>
        && p < Replay.TOTAL_BLOCKS && old(free[p]) && p !in chain && p != 511 && p != 1019
        && !Names(Marked(disk, md, chain, |chain| - 1, t), p)
      ensures forall lba :: lba in l2p ==> l2p[lba] !in list
      ensures currentVmd !in list && Distinct(list) && ZeroFirst(list)
      ensures forall i, j :: 0 <= i < j < |list| ==> list[i] < list[j]
    {
      hide Fold, Names, Counted, Marked, ChainFrom;
      ChainNotEmpty(disk, currentVmd, chain);
      Chase(disk, md, t, chain);
      free[511] := false;
      free[1019] := false;
      list := BuildFreelist();
      assert chain[|chain| - 1] in chain;
      assert forall i :: 0 < i < |list| ==> list[0] < list[i];
      forall lba | lba in l2p
        ensures l2p[lba] !in list
      {
        MappedIsMarked(disk, md, chain, |chain| - 1, t, lba);
      }
    }
  }

  lemma ChainNotEmpty(disk: Disk, start: nat, chain: seq<nat>)
    requires ChainFrom(disk, start, chain)
    ensures |chain| > 0
  {
  }

  lemma MappedIsMarked(disk: Disk, md: nat -> Timelock.Entry, chain: seq<nat>, k: nat, t: nat, lba: nat)
    requires k <= |chain| && lba in Fold(map[], Counted(disk, md, chain, k, t))
    ensures Names(Marked(disk, md, chain, k, t), Fold(map[], Counted(disk, md, chain, k, t))[lba])
  {
    var entries := Counted(disk, md, chain, k, t);
    var i := FoldValues(entries, lba);
    assert Names(entries, entries[i].pba);
    CountedIsMarked(disk, md, chain, k, t, entries[i].pba);
  }

  lemma NotAtEnd(disk: Disk, start: nat, chain: seq<nat>, k: nat)
    requires ChainFrom(disk, start, chain) && k < |chain|
    requires 0 != disk(chain[k]).seed == disk(start).seed && disk(chain[k]).ptr < Replay.TOTAL_BLOCKS
    ensures k + 1 < |chain| && chain[k + 1] == disk(chain[k]).ptr
  {
    if k + 1 < |chain| { Accepted(disk, start, chain, k); }
  }

  lemma EndOfChain(disk: Disk, start: nat, chain: seq<nat>, k: nat)
    requires ChainFrom(disk, start, chain) && k < |chain|
    requires
      || disk(chain[k]).seed == 0 || disk(chain[k]).seed != disk(start).seed
      || disk(chain[k]).ptr >= Replay.TOTAL_BLOCKS
    ensures k == |chain| - 1
  {
    if k + 1 < |chain| { Accepted(disk, start, chain, k); }
  }

  lemma NextCounted(disk: Disk, md: nat -> Timelock.Entry, chain: seq<nat>, k: nat, t: nat)
    requires k < |chain|
    ensures
      var more := Proper(disk(chain[k]).entries);
      Fold(map[], Counted(disk, md, chain, k + 1, t))
      == Fold(Fold(map[], Counted(disk, md, chain, k, t)), if Counts(md(chain[k]), t) then more else [])
    ensures forall p :: Names(Marked(disk, md, chain, k + 1, t), p) <==>
      Names(Marked(disk, md, chain, k, t), p) || (Marks(md(chain[k]), t) && Names(Proper(disk(chain[k]).entries), p))
  {
    hide Fold, Names, Proper, Counts, Marks;
    var more := Proper(disk(chain[k]).entries);
    FoldConcat(map[], Counted(disk, md, chain, k, t), if Counts(md(chain[k]), t) then more else []);
    NothingYet(map[]);
    forall p
      ensures Names(Marked(disk, md, chain, k + 1, t), p) <==>
        Names(Marked(disk, md, chain, k, t), p) || (Marks(md(chain[k]), t) && Names(more, p))
    {
      NamesAppend(Marked(disk, md, chain, k, t), if Marks(md(chain[k]), t) then more else [], p);
    }
  }

  lemma BoundsOf(e: Entry)
    ensures InBounds(e) ==> e.lba < Replay.TOTAL_BLOCKS && e.pba < Replay.TOTAL_BLOCKS
  {
  }

  lemma NothingYet(l2p: map<nat, nat>)
    ensures Fold(l2p, []) == l2p && Proper([]) == [] && forall p :: !Names([], p)
  {
  }

  lemma OneMoreName(entries: seq<Entry>, e: Entry)
    ensures forall p :: Names(entries + [e], p) <==> Names(entries, p) || p == e.pba
  {
    forall p
      ensures Names(entries + [e], p) <==> Names(entries, p) || p == e.pba
    {
      NamesAppend(entries, [e], p);
      assert Names([e], p) <==> [e][0].pba == p;
    }
  }
}
