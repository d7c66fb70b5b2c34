/** What one log block does to the metadata blocks in the gatekeeper's cache, on values: the
    entries it names are stepped, and every touched block is sealed again under a higher
    freshness counter. */
module LogUpdates {
  import opened Bytes
  import opened Timelock
  import opened Replay
  import opened Collections

  /** sizeof_hash_block_obj, and what of it is hashed: entries, index and counter. */
  const SLOT_BYTES: nat := 4136
  const HEAD_BYTES: nat := 4104

  type Digest = d: seq<byte> | |d| == 32 witness seq(32, i => 0)

  /** The keyed hash. */
  type Mac = seq<byte> -> Digest

  /** A metadata block as cached and sent: 4096 bytes of entries, index, counter, digest. */
  type Slot = b: seq<byte> | |b| == SLOT_BYTES witness seq(SLOT_BYTES, i => 0)

  function MdOf(b: Slot): u32 { U32(b, 4096) }

  function CounterOf(b: Slot): u32 { U32(b, 4100) }

  /** HashBlock: index and counter are written, then the digest over both and the entries. */
  function Seal(mac: Mac, b: Slot, md: u32, counter: u32): Slot {
    var head := b[..4096] + Bytes32(md) + Bytes32(counter);
    head + mac(head)
  }

  /** CheckHash */
  predicate HashHolds(mac: Mac, b: Slot) { mac(b[..HEAD_BYTES]) == b[HEAD_BYTES..] }

  /** find_needle_in_haystack: the first index of md, or the length. */
  function FindTag(tags: seq<nat>, md: nat): (i: nat)
    ensures i <= |tags|
    ensures i < |tags| <==> md in tags
    ensures i < |tags| ==> tags[i] == md
  {
    if tags == [] || tags[0] == md then 0 else 1 + FindTag(tags[1..], md)
  }

  lemma {:induction false} FindTagFirst(tags: seq<nat>, md: nat, j: nat)
    requires j < FindTag(tags, md)
    ensures tags[j] != md
  {
    if j > 0 { FindTagFirst(tags[1..], md, j - 1); }
  }

  /** An index with md and none before it is the one found. */
  lemma {:induction false} FindTagIs(tags: seq<nat>, md: nat, i: nat)
    requires i <= |tags| && (i < |tags| ==> tags[i] == md)
    requires forall j :: 0 <= j < i ==> tags[j] != md
    ensures FindTag(tags, md) == i
  {
    if i < FindTag(tags, md) { FindTagFirst(tags, md, i); }
  }

  // ---- Stepping the named entries ----

  /** One named address: None when its block is not cached or the deadline would overflow. */
  function StepSlot(tags: seq<nat>, slots: seq<Slot>, pba: nat, keep: u32, now: u32): (r: Option<seq<Slot>>)
    requires |slots| == |tags|
    ensures r.Some? ==> |r.value| == |slots|
  {
    var i, o := FindTag(tags, pba / 512), 8 * (pba % 512);
    if i == |tags| || !ValidDeadline(EntryAt(slots[i], o), now) then None
    else Some(slots[i := PutEntry(slots[i], o, Next(EntryAt(slots[i], o), keep, now))])
  }

  function StepSlots(tags: seq<nat>, slots: seq<Slot>, pbas: seq<nat>, keep: u32, now: u32): (r: Option<seq<Slot>>)
    requires |slots| == |tags|
    ensures r.Some? ==> |r.value| == |slots|
  {
    if pbas == [] then Some(slots)
    else
      var most := StepSlots(tags, slots, pbas[..|pbas| - 1], keep, now);
      if most.None? then None else StepSlot(tags, most.value, pbas[|pbas| - 1], keep, now)
  }

  /** The cache entry of a physical block whose metadata block is resident. */
  ghost function CachedEntry(tags: seq<nat>, slots: seq<Slot>, pba: nat): Entry
    requires |slots| == |tags| && pba / 512 in tags
  {
    EntryAt(slots[FindTag(tags, pba / 512)], 8 * (pba % 512))
  }

  /** The cached blocks hold what the state of all blocks says. */
  ghost predicate Agrees(s: seq<Entry>, tags: seq<nat>, slots: seq<Slot>) {
    && |s| == TOTAL_BLOCKS && |slots| == |tags|
    && forall pba: nat :: pba < |s| && pba / 512 in tags ==> s[pba] == CachedEntry(tags, slots, pba)
  }

  lemma EntriesApart(p: nat, q: nat)
    requires p / 512 == q / 512 && p != q
    ensures 8 * (q % 512) + 8 <= 8 * (p % 512) || 8 * (p % 512) + 8 <= 8 * (q % 512)
  {
  }

  lemma StepSlotRefines(s: seq<Entry>, tags: seq<nat>, slots: seq<Slot>, pba: nat, keep: u32, now: u32)
    requires Agrees(s, tags, slots) && pba < TOTAL_BLOCKS
    ensures StepSlot(tags, slots, pba, keep, now).Some? <==> pba / 512 in tags && ValidDeadline(s[pba], now)
    ensures StepSlot(tags, slots, pba, keep, now).Some? ==>
      Agrees(StepAt(s, pba, keep, now), tags, StepSlot(tags, slots, pba, keep, now).value)
  {
    hide Next, ValidDeadline, PutEntry, EntryAt;
    var r := StepSlot(tags, slots, pba, keep, now);
    if pba / 512 in tags {
      assert s[pba] == CachedEntry(tags, slots, pba);
      if r.Some? {
        var i, o, s' := FindTag(tags, pba / 512), 8 * (pba % 512), StepAt(s, pba, keep, now);
        var e := Next(s[pba], keep, now);
        PutEntryAt(slots[i], o, e);
        forall q: nat | q < |s| && q / 512 in tags
          ensures s'[q] == CachedEntry(tags, r.value, q)
        {
          assert s[q] == CachedEntry(tags, slots, q);
          if FindTag(tags, q / 512) == i && q != pba {
            EntriesApart(pba, q);
            SameElsewhere(slots[i], PutEntry(slots[i], o, e), o, o + 8, 8 * (q % 512));
          }
        }
      }
    }
  }

  /** The metadata blocks of the addresses. */
  function Mds(pbas: seq<nat>): set<nat> { set p | p in pbas :: p / 512 }

  lemma MdsAppend(pbas: seq<nat>, pba: nat)
    ensures Mds(pbas + [pba]) == Mds(pbas) + {pba / 512}
  {
    var all := pbas + [pba];
    assert pba in all;
    forall p | p in pbas
      ensures p in all
    {
    }
    assert forall md :: md in Mds(all) ==> md in Mds(pbas) + {pba / 512};
    assert forall md :: md in Mds(pbas) + {pba / 512} ==> md in Mds(all);
  }

  ghost predicate Resident(tags: seq<nat>, mds: set<nat>) { forall md :: md in mds ==> md in tags }

  /** Stepping the cached bytes in log order is executing the transaction on the decoded entries,
      and it fails exactly when a block is missing or a deadline overflows. */
  lemma {:induction false} StepSlotsRefine(s: seq<Entry>, tags: seq<nat>, slots: seq<Slot>, pbas: seq<nat>,
                                           keep: u32, now: u32)
    requires Agrees(s, tags, slots) && forall i :: 0 <= i < |pbas| ==> pbas[i] < TOTAL_BLOCKS
    ensures StepSlots(tags, slots, pbas, keep, now).Some? <==>
      Resident(tags, Mds(pbas)) && DeadlinesHold(s, pbas, keep, now)
    ensures StepSlots(tags, slots, pbas, keep, now).Some? ==>
      Agrees(Execute(s, pbas, keep, now), tags, StepSlots(tags, slots, pbas, keep, now).value)
    decreases |pbas|
  {
    hide Agrees, StepSlot, StepAt, ValidDeadline, Execute;
    AgreesLength(s, tags, slots);
    if pbas == [] {
      ExecuteNothing(s, keep, now);
    } else {
      var most, last := pbas[..|pbas| - 1], pbas[|pbas| - 1];
      assert pbas == most + [last];
      StepSlotsRefine(s, tags, slots, most, keep, now);
      ExecuteAppend(s, most, last, keep, now);
      MdsAppend(most, last);
      var r := StepSlots(tags, slots, most, keep, now);
      if r.Some? { StepSlotRefines(Execute(s, most, keep, now), tags, r.value, last, keep, now); }
    }
  }

  lemma AgreesLength(s: seq<Entry>, tags: seq<nat>, slots: seq<Slot>)
    requires Agrees(s, tags, slots)
    ensures |s| == TOTAL_BLOCKS && |slots| == |tags|
  {
  }

  lemma ExecuteNothing(s: seq<Entry>, keep: u32, now: u32)
    ensures Execute(s, [], keep, now) == s
  {
  }

  /** Only the eight bytes of named entries change. */
  lemma {:induction false} OtherBytesStay(tags: seq<nat>, slots: seq<Slot>, pbas: seq<nat>, keep: u32, now: u32,
                                          i: nat, k: nat)
    requires |slots| == |tags| && StepSlots(tags, slots, pbas, keep, now).Some?
    requires i < |tags| && k < SLOT_BYTES
    requires k < 4096 ==> 512 * tags[i] + k / 8 !in pbas
    ensures StepSlots(tags, slots, pbas, keep, now).value[i][k] == slots[i][k]
    decreases |pbas|
  {
    if pbas != [] {
      var most, last := pbas[..|pbas| - 1], pbas[|pbas| - 1];
      OtherBytesStay(tags, slots, most, keep, now, i, k);
      var v := StepSlots(tags, slots, most, keep, now).value;
      StepSlotElsewhere(tags, v, last, keep, now, i, k);
    }
  }

  lemma StepSlotElsewhere(tags: seq<nat>, slots: seq<Slot>, pba: nat, keep: u32, now: u32, i: nat, k: nat)
    requires |slots| == |tags| && StepSlot(tags, slots, pba, keep, now).Some?
    requires i < |tags| && k < SLOT_BYTES
    requires k < 4096 ==> 512 * tags[i] + k / 8 != pba
    ensures StepSlot(tags, slots, pba, keep, now).value[i][k] == slots[i][k]
  {
    hide Next, PutEntry, EntryAt, ValidDeadline;
    var j, o := FindTag(tags, pba / 512), 8 * (pba % 512);
    PutEntryAt(slots[j], o, Next(EntryAt(slots[j], o), keep, now));
    if j == i && o <= k < o + 8 { InsideEntry(pba, k); }
  }

  lemma InsideEntry(pba: nat, k: nat)
    requires 8 * (pba % 512) <= k < 8 * (pba % 512) + 8
    ensures k < 4096 && 512 * (pba / 512) + k / 8 == pba
  {
    assert k / 8 == pba % 512;
  }

  // ---- Sealing the touched blocks ----

  /** How often consecutive addresses change metadata block: touched_count. */
  function Switches(pbas: seq<nat>): (n: nat)
    ensures n <= |pbas| && (pbas != [] ==> n > 0)
  {
    if pbas == [] then 0
    else
      var most, last := pbas[..|pbas| - 1], pbas[|pbas| - 1];
      Switches(most) + if most != [] && most[|most| - 1] / 512 == last / 512 then 0 else 1
  }

  /** The positions whose metadata block is not that of the position before. */
  ghost function SwitchesAt(pbas: seq<nat>): set<nat> { set i: nat | i < |pbas| && IsSwitch(pbas, i) }

  predicate IsSwitch(pbas: seq<nat>, i: nat)
    requires i < |pbas|
  {
    i == 0 || pbas[i - 1] / 512 != pbas[i] / 512
  }

  lemma {:induction false} SwitchesCount(pbas: seq<nat>)
    ensures Switches(pbas) == |SwitchesAt(pbas)|
    decreases |pbas|
  {
    hide SwitchesAt;
    if pbas == [] {
      NoSwitches();
    } else {
      SwitchesCount(pbas[..|pbas| - 1]);
      OneMoreSwitch(pbas, |pbas| - 1);
    }
  }

  lemma NoSwitches()
    ensures SwitchesAt([]) == {}
  {
  }

  lemma OneMoreSwitch(pbas: seq<nat>, n: nat)
    requires n + 1 == |pbas|
    ensures |SwitchesAt(pbas)| == |SwitchesAt(pbas[..n])| + if IsSwitch(pbas, n) then 1 else 0
  {
    var most := pbas[..n];
    assert n !in SwitchesAt(most) && forall i: nat :: i < n ==> (IsSwitch(most, i) <==> IsSwitch(pbas, i));
    assert SwitchesAt(pbas) == SwitchesAt(most) + if IsSwitch(pbas, n) then {n} else {};
  }

  /** The freshness counters with those of the touched blocks one higher. */
  ghost function Bump(counters: seq<u32>, mds: set<nat>): (r: seq<u32>)
    ensures |r| == |counters|
  {
    seq(|counters|, m requires 0 <= m < |counters| =>
      if m in mds && counters[m] < 0xFFFF_FFFF then counters[m] + 1 else counters[m])
  }

  predicate BelowMax(counters: seq<nat>, mds: set<nat>) {
    forall md :: md in mds ==> md < |counters| && counters[md] < 0xFFFF_FFFF
  }

  /** Slot i is the one the cache scan finds for its tag. */
  predicate Found(tags: seq<nat>, i: nat)
    requires i < |tags|
  {
    FindTag(tags, tags[i]) == i
  }

  ghost predicate Resealed(mac: Mac, tags: seq<nat>, was: seq<Slot>, now: seq<Slot>, counters: seq<u32>,
                           mds: set<nat>) {
    && |was| == |now| == |tags|
    && forall i :: 0 <= i < |tags| ==>
      now[i] == if tags[i] in mds && Found(tags, i) && tags[i] < |counters| && tags[i] < 0x1_0000_0000
                then Seal(mac, was[i], tags[i], counters[tags[i]]) else was[i]
  }

  /** No part of the log block halts the gatekeeper. */
  ghost predicate LogAccepted(tags: seq<nat>, slots: seq<Slot>, counters: seq<u32>, tx: Transaction)
    requires |slots| == |tags|
  {
    && StepSlots(tags, slots, tx.pbas, tx.keep, tx.now).Some?
    && Switches(tx.pbas) <= 10
    && BelowMax(counters, Mds(tx.pbas))
  }

  /** The state after a log block that did not halt the gatekeeper. */
  ghost predicate LogApplied(mac: Mac, tags: seq<nat>, slots: seq<Slot>, counters: seq<u32>, tx: Transaction,
                             slots': seq<Slot>, counters': seq<u32>)
    requires |slots| == |tags|
  {
    && LogAccepted(tags, slots, counters, tx)
    && counters' == Bump(counters, Mds(tx.pbas))
    && Resealed(mac, tags, StepSlots(tags, slots, tx.pbas, tx.keep, tx.now).value, slots', counters', Mds(tx.pbas))
  }

  lemma SealParts(mac: Mac, b: Slot, md: u32, counter: u32)
    ensures
      var c := Seal(mac, b, md, counter);
      c[..4096] == b[..4096] && MdOf(c) == md && CounterOf(c) == counter && HashHolds(mac, c)
  {
    hide Bytes32, Word4;
    var head := b[..4096] + Bytes32(md) + Bytes32(counter);
    WordRoundTrip(md);
    WordRoundTrip(counter);
    assert (head + mac(head))[..HEAD_BYTES] == head;
    assert (head + mac(head))[HEAD_BYTES..] == mac(head);
    assert (head + mac(head))[..4096] == b[..4096];
  }

  /** ComputeLogUpdates refines ExecuteTransactionSeq: when it does not halt, the decoded cached
      entries are the in-order execution of the log, the counter of each named block rises by
      exactly one and of no other, and each named block is sealed under its new counter.  It
      halts exactly on a missing block, an overflowing deadline, more than ten changes of
      metadata block, or an exhausted counter. */
  lemma LogUpdatesRefineExecute(mac: Mac, s: seq<Entry>, tags: seq<nat>, slots: seq<Slot>, counters: seq<u32>,
                                tx: Transaction, slots': seq<Slot>, counters': seq<u32>)
    requires Agrees(s, tags, slots) && |counters| == MD_BLOCKS
    requires forall i :: 0 <= i < |tx.pbas| ==> tx.pbas[i] < TOTAL_BLOCKS
    ensures LogAccepted(tags, slots, counters, tx) <==>
      && Resident(tags, Mds(tx.pbas)) && DeadlinesHold(s, tx.pbas, tx.keep, tx.now)
      && Switches(tx.pbas) <= 10 && BelowMax(counters, Mds(tx.pbas))
    ensures LogApplied(mac, tags, slots, counters, tx, slots', counters') ==>
      && Agrees(ExecuteTx(s, tx), tags, slots')
      && |counters'| == MD_BLOCKS
      && (forall md :: 0 <= md < MD_BLOCKS ==> counters'[md] == counters[md] + if md in Mds(tx.pbas) then 1 else 0)
      && forall md :: md in Mds(tx.pbas) ==>
        var b := slots'[FindTag(tags, md)];
        MdOf(b) == md && CounterOf(b) == counters'[md] && HashHolds(mac, b)
  {
    hide StepSlots, Agrees, Execute, Switches, DeadlinesHold, EntryAt, MdOf, CounterOf, HashHolds, Seal;
    AgreesLength(s, tags, slots);
    StepSlotsRefine(s, tags, slots, tx.pbas, tx.keep, tx.now);
    if LogApplied(mac, tags, slots, counters, tx, slots', counters') {
      var mid := StepSlots(tags, slots, tx.pbas, tx.keep, tx.now).value;
      SealingKeepsEntries(mac, ExecuteTx(s, tx), tags, mid, slots', counters', Mds(tx.pbas));
      forall md | md in Mds(tx.pbas)
        ensures
          var b := slots'[FindTag(tags, md)];
          MdOf(b) == md && CounterOf(b) == counters'[md] && HashHolds(mac, b)
      {
        SealParts(mac, mid[FindTag(tags, md)], md, counters'[md]);
      }
    }
  }

  lemma SealingKeepsEntries(mac: Mac, s: seq<Entry>, tags: seq<nat>, was: seq<Slot>, now: seq<Slot>,
                            counters: seq<u32>, mds: set<nat>)
    requires Agrees(s, tags, was) && Resealed(mac, tags, was, now, counters, mds)
    ensures Agrees(s, tags, now)
  {
    hide EntryAt, Seal;
    forall pba: nat | pba < |s| && pba / 512 in tags
      ensures s[pba] == CachedEntry(tags, now, pba)
    {
      assert s[pba] == CachedEntry(tags, was, pba);
      var i := FindTag(tags, pba / 512);
      if now[i] != was[i] {
        SealParts(mac, was[i], tags[i], counters[tags[i]]);
        SameArea(was[i], now[i], 8 * (pba % 512));
      }
    }
  }

  lemma SameArea(b: Slot, c: Slot, o: nat)
    requires b[..4096] == c[..4096] && o + 8 <= 4096
    ensures EntryAt(b, o) == EntryAt(c, o)
  {
    hide Word4;
    assert forall k :: 0 <= k < 4096 ==> b[..4096][k] == b[k] && c[..4096][k] == c[k];
  }

  // ---- Facts the loops of ComputeLogUpdates need ----

  lemma StepSlotsAppend(tags: seq<nat>, slots: seq<Slot>, pbas: seq<nat>, pba: nat, keep: u32, now: u32)
    requires |slots| == |tags|
    ensures StepSlots(tags, slots, pbas + [pba], keep, now) ==
      var most := StepSlots(tags, slots, pbas, keep, now);
      if most.None? then None else StepSlot(tags, most.value, pba, keep, now)
  {
    hide StepSlot;
    assert (pbas + [pba])[..|pbas|] == pbas;
  }

  lemma SwitchesAppend(pbas: seq<nat>, pba: nat)
    ensures Switches(pbas + [pba]) ==
      Switches(pbas) + if pbas != [] && pbas[|pbas| - 1] / 512 == pba / 512 then 0 else 1
  {
    var all := pbas + [pba];
    assert all[..|all| - 1] == pbas && all[|all| - 1] == pba;
  }

  /** A prefix of the log that halts the gatekeeper halts it for the whole. */
  lemma {:induction false} PrefixRuns(tags: seq<nat>, slots: seq<Slot>, log: seq<byte>, o: nat, i: nat, n: nat,
                                      keep: u32, now: u32)
    requires |slots| == |tags| && i <= n && o + 4 * n <= |log|
    ensures StepSlots(tags, slots, LogPbas(log, o, n), keep, now).Some? ==>
      StepSlots(tags, slots, LogPbas(log, o, i), keep, now).Some?
    ensures Switches(LogPbas(log, o, i)) <= Switches(LogPbas(log, o, n))
    decreases n
  {
    hide StepSlot, StepSlots, Switches;
    if i < n {
      PrefixRuns(tags, slots, log, o, i, n - 1, keep, now);
      var pba := U32(log, o + 4 * (n - 1));
      var most := LogPbas(log, o, n - 1);
      if pba < TOTAL_BLOCKS {
        StepSlotsAppend(tags, slots, most, pba, keep, now);
        SwitchesAppend(most, pba);
      } else {
        assert most + [] == most;
      }
    }
  }

  /** touched lists the cache positions of the metadata blocks mds, possibly more than once. */
  ghost predicate Touches(tags: seq<nat>, touched: seq<nat>, mds: set<nat>) {
    && (forall j :: 0 <= j < |touched| ==>
         touched[j] < |tags| && Found(tags, touched[j]) && tags[touched[j]] in mds)
    && (forall md :: md in mds ==> md in tags && FindTag(tags, md) in touched)
  }

  lemma TouchesMore(tags: seq<nat>, touched: seq<nat>, mds: set<nat>, md: nat)
    requires Touches(tags, touched, mds) && md in tags
    ensures Touches(tags, touched + [FindTag(tags, md)], mds + {md})
    ensures FindTag(tags, md) in touched ==> Touches(tags, touched, mds + {md})
  {
    var more := touched + [FindTag(tags, md)];
    forall x | x in mds + {md}
      ensures x in tags && FindTag(tags, x) in more
    {
      assert more[|touched|] == FindTag(tags, md);
      if x != md { assert FindTag(tags, x) in touched; }
    }
  }

  lemma BumpAt(counters: seq<u32>, mds: set<nat>, md: nat)
    requires md < |counters| && md !in mds
    ensures Bump(counters, mds)[md] == counters[md]
  {
  }

  lemma BumpOne(counters: seq<u32>, mds: set<nat>, md: nat)
    requires md < |counters| && md !in mds && counters[md] < 0xFFFF_FFFF
    ensures Bump(counters, mds)[md := counters[md] + 1] == Bump(counters, mds + {md})
  {
  }

  lemma ResealOne(mac: Mac, tags: seq<nat>, was: seq<Slot>, now: seq<Slot>, counters: seq<u32>, mds: set<nat>,
                  pos: nat, counter: u32)
    requires Resealed(mac, tags, was, now, counters, mds) && pos < |tags| && Found(tags, pos)
    requires tags[pos] < |counters| && tags[pos] < 0x1_0000_0000 && tags[pos] !in mds
    ensures Resealed(mac, tags, was, now[pos := Seal(mac, now[pos], tags[pos], counter)],
                     counters[tags[pos] := counter], mds + {tags[pos]})
  {
    hide Seal;
  }
}
