/** timelock.dfy: the entry of one physical block, its step, and the step on bytes. */
module Timelock {
  import opened Bytes

  datatype Entry = Entry(keep: u32, time: u32)

  predicate IsFree(e: Entry, now: u32) { e.time % 2 == 1 && now > e.keep }

  predicate IsFrozen(e: Entry) { e.time % 2 == 0 }

  predicate IsCountdown(e: Entry, now: u32) { e.time % 2 == 1 && now <= e.keep }

  predicate ValidDeadline(e: Entry, now: u32) { e.keep + now < 0x1_0000_0000 }

  /** ConcreteTimelockNext */
  function Next(e: Entry, keep: u32, now: u32): Entry
    requires ValidDeadline(e, now)
  {
    if IsFree(e, now) then Entry(keep, if now % 2 == 0 then now else now - 1)
    else if IsFrozen(e) then Entry(e.keep + now, e.time + 1)
    else e
  }

  // ---- Entries as bytes: keep duration, then time written ----

  function EntryAt(s: seq<byte>, o: nat): Entry
    requires o + 8 <= |s|
  {
    Entry(U32(s, o), U32(s, o + 4))
  }

  function PutEntry(s: seq<byte>, o: nat, e: Entry): (r: seq<byte>)
    requires o + 8 <= |s|
    ensures |r| == |s|
  {
    Patch(s, o, Bytes32(e.keep) + Bytes32(e.time))
  }

  ghost predicate SameOutside(s: seq<byte>, t: seq<byte>, lo: nat, hi: nat) {
    |s| == |t| && forall k :: 0 <= k < |s| && !(lo <= k < hi) ==> s[k] == t[k]
  }

  lemma PutEntryAt(s: seq<byte>, o: nat, e: Entry)
    requires o + 8 <= |s|
    ensures EntryAt(PutEntry(s, o, e), o) == e && SameOutside(s, PutEntry(s, o, e), o, o + 8)
  {
    hide Bytes32, Word4;
    WordRoundTrip(e.keep);
    WordRoundTrip(e.time);
  }

  lemma SameElsewhere(s: seq<byte>, t: seq<byte>, lo: nat, hi: nat, o: nat)
    requires SameOutside(s, t, lo, hi) && o + 8 <= |s| && (o + 8 <= lo || hi <= o)
    ensures EntryAt(t, o) == EntryAt(s, o)
  {
    hide Word4;
  }

  /** The two words fix the eight bytes. */
  lemma EntryFixesBytes(s: seq<byte>, t: seq<byte>, o: nat)
    requires o + 8 <= |s| && SameOutside(s, t, o, o + 8) && EntryAt(s, o) == EntryAt(t, o)
    ensures s == t
  {
    hide Bytes32, Word4;
    BytesRoundTrip(s, o);
    BytesRoundTrip(t, o);
    BytesRoundTrip(s, o + 4);
    BytesRoundTrip(t, o + 4);
    SameSlices(s, t, o);
  }

  lemma SameSlices(s: seq<byte>, t: seq<byte>, o: nat)
    requires o + 8 <= |s| && SameOutside(s, t, o, o + 8)
    requires s[o..o + 4] == t[o..o + 4] && s[o + 4..o + 8] == t[o + 4..o + 8]
    ensures s == t
  {
    assert s == s[..o] + s[o..o + 4] + s[o + 4..o + 8] + s[o + 8..];
    assert t == t[..o] + t[o..o + 4] + t[o + 4..o + 8] + t[o + 8..];
    assert s[..o] == t[..o] && s[o + 8..] == t[o + 8..];
  }

  // ---- The step on bytes ----

  predicate FreeBytes(s: seq<byte>, o: nat, time: seq<byte>, t: nat)
    requires o + 8 <= |s| && t + 4 <= |time|
  {
    OddBytes(s, o + 4) && GreaterBytes(time, t, s, o)
  }

  lemma FreeBytesIsFree(s: seq<byte>, o: nat, time: seq<byte>, t: nat)
    requires o + 8 <= |s| && t + 4 <= |time|
    ensures FreeBytes(s, o, time, t) <==> IsFree(EntryAt(s, o), U32(time, t))
  {
    OddBytesIsOdd(s, o + 4);
    GreaterBytesIsGreater(time, t, s, o);
  }

  /** Subtracting one from, or adding one to, the low byte of an odd or even word. */
  lemma LowByteStep(s: seq<byte>, o: nat, b: byte)
    requires o + 4 <= |s|
    ensures s[o] % 2 == 1 && Int(b) == Int(s[o]) - 1 ==> U32(s[o := b], o) == U32(s, o) - 1
    ensures s[o] % 2 == 0 && Int(b) == Int(s[o]) + 1 ==> U32(s[o := b], o) == U32(s, o) + 1
  {
  }

  lemma SameWord(s: seq<byte>, i: nat, t: seq<byte>, j: nat)
    requires i + 4 <= |s| && j + 4 <= |t|
    requires s[i] == t[j] && s[i + 1] == t[j + 1] && s[i + 2] == t[j + 2] && s[i + 3] == t[j + 3]
    ensures U32(s, i) == U32(t, j)
  {
  }

  /** A free entry is frozen anew: both words are overwritten, the time made even. */
  method Refreeze(block: array<byte>, o: nat, keep: array<byte>, k: nat, time: array<byte>, t: nat)
    requires block != keep && block != time
    requires o + 8 <= block.Length && k + 4 <= keep.Length && t + 4 <= time.Length
    modifies block
    ensures SameOutside(old(block[..]), block[..], o, o + 8)
    ensures
      var now := U32(time[..], t);
      EntryAt(block[..], o) == Entry(U32(keep[..], k), if now % 2 == 0 then now else now - 1)
  {
    hide Word4, OddBytes, Int;
    WriteBytes(block, o, keep, k);
    WriteBytes(block, o + 4, time, t);
    ghost var now := U32(time[..], t);
    SameWord(block[..], o, keep[..], k);
    SameWord(block[..], o + 4, time[..], t);
    OddBytesIsOdd(block[..], o + 4);
    ghost var was := block[..];
    if OddBytes(block[..], o + 4) {
      OddByte(was, o + 4);
      block[o + 4] := block[o + 4] - 1;
      assert block[..] == was[o + 4 := was[o + 4] - 1];
      LowByteStep(was, o + 4, was[o + 4] - 1);
      SameWord(block[..], o, was, o);
    }
  }

  lemma OddByte(s: seq<byte>, o: nat)
    requires o + 4 <= |s|
    ensures OddBytes(s, o) ==> s[o] >= 1 && Int(s[o] - 1) == Int(s[o]) - 1
    ensures !OddBytes(s, o) ==> s[o] < 255 && Int(s[o] + 1) == Int(s[o]) + 1
    ensures OddBytes(s, o) <==> s[o] % 2 == 1
    ensures !OddBytes(s, o) <==> s[o] % 2 == 0
  {
  }

  /** A frozen entry starts its countdown: the clock is added to the keep word. */
  method StartCountdown(block: array<byte>, o: nat, time: array<byte>, t: nat)
    requires block != time && o + 8 <= block.Length && t + 4 <= time.Length
    requires !WouldOverflow(block[..], o, time[..], t) && !OddBytes(block[..], o + 4)
    modifies block
    ensures SameOutside(old(block[..]), block[..], o, o + 8)
    ensures
      var e := old(EntryAt(block[..], o));
      e.keep + U32(time[..], t) < 0x1_0000_0000 && e.time < 0xFFFF_FFFF
      && EntryAt(block[..], o) == Entry(e.keep + U32(time[..], t), e.time + 1)
  {
    hide Word4, OddBytes, WouldOverflow, Int;
    ghost var was := block[..];
    OverflowIsCarry(was, o, time[..], t);
    OddByte(was, o + 4);
    AddBytes(block, o, time, t);
    ghost var mid := block[..];
    SameWord(mid, o + 4, was, o + 4);
    block[o + 4] := block[o + 4] + 1;
    assert block[..] == mid[o + 4 := mid[o + 4] + 1];
    LowByteStep(mid, o + 4, mid[o + 4] + 1);
    SameWord(block[..], o, mid, o);
  }

  /** ByteLevelTimelockNext: the byte step is Next on the entry and touches nothing else.  A free
      entry takes the new keep duration and the clock, made even; a frozen one takes its deadline
      and an odd time; one that counts down stays. */
  method StepBytes(block: array<byte>, o: nat, keep: array<byte>, k: nat, time: array<byte>, t: nat)
    requires block != keep && block != time
    requires o + 8 <= block.Length && k + 4 <= keep.Length && t + 4 <= time.Length
    requires !WouldOverflow(block[..], o, time[..], t)
    modifies block
    ensures ValidDeadline(old(EntryAt(block[..], o)), U32(time[..], t))
    ensures block[..] ==
      PutEntry(old(block[..]), o, Next(old(EntryAt(block[..], o)), U32(keep[..], k), U32(time[..], t)))
    ensures
      var e, e', now := old(EntryAt(block[..], o)), EntryAt(block[..], o), U32(time[..], t);
      if e.time % 2 == 0 then e'.keep == e.keep + now && e'.time == e.time + 1
      else if now > e.keep then e'.keep == U32(keep[..], k) && e'.time == now - now % 2
      else e' == e
  {
    hide Word4, OddBytes, WouldOverflow, Int, FreeBytes, PutEntry;
    ghost var was, e := block[..], EntryAt(block[..], o);
    OverflowIsCarry(was, o, time[..], t);
    FreeBytesIsFree(was, o, time[..], t);
    OddBytesIsOdd(was, o + 4);
    if FreeBytes(block[..], o, time[..], t) {
      Refreeze(block, o, keep, k, time, t);
    } else if !OddBytes(block[..], o + 4) {
      StartCountdown(block, o, time, t);
    }
    ghost var e' := Next(e, U32(keep[..], k), U32(time[..], t));
    assert EntryAt(block[..], o) == e';
    PutEntryAt(was, o, e');
    EntryFixesBytes(block[..], PutEntry(was, o, e'), o);
  }
}
