/** The packed flag words of khash.h, on 32-bit vectors. */
module Flags {
  /** What the two flag bits of a bucket say; Both never occurs in a table. */
  datatype Cell = Live | Deleted | Empty | Both

  /** `(i & 0xf) << 1` */
  function Shift(i: nat): (s: bv32)
    ensures s & 1 == 0 && s < 32
  {
    SmallShift(i % 16);
    ((i % 16) as bv32) << 1
  }

  lemma SmallShift(j: nat)
    requires j < 16
    ensures (j as bv32) < 16
  {
  }

  lemma SmallDiffer(j: nat, k: nat)
    requires j < k < 16
    ensures (j as bv32) != (k as bv32)
  {
  }

  /** Two buckets of one word use different bit positions. */
  lemma DistinctShifts(i: nat, j: nat)
    requires i % 16 != j % 16
    ensures Shift(i) != Shift(j)
  {
    ShiftsOfLowBits(i % 16, j % 16);
  }

  lemma ShiftsOfLowBits(j: nat, k: nat)
    requires j < 16 && k < 16 && j != k
    ensures (j as bv32) << 1 != (k as bv32) << 1
  {
    if j < k { SmallDiffer(j, k); } else { SmallDiffer(k, j); }
    SmallShift(j);
    SmallShift(k);
    DoubledDiffer(j as bv32, k as bv32);
  }

  lemma DoubledDiffer(a: bv32, b: bv32)
    requires a < 16 && b < 16 && a != b
    ensures a << 1 != b << 1
  {
  }

  function CellOf(bits: bv32): Cell {
    if bits == 0 then Live else if bits == 1 then Deleted else if bits == 2 then Empty else Both
  }

  /** The two bits at shift s of a word, and the word with some of them cleared or set. */
  function BitsAt(word: bv32, s: bv32): bv32
    requires s < 32
  {
    (word >> s) & 3
  }

  function ClearAt(word: bv32, bits: bv32, s: bv32): bv32
    requires s < 32
  {
    word & !(bits << s)
  }

  function SetAt(word: bv32, bits: bv32, s: bv32): bv32
    requires s < 32
  {
    word | (bits << s)
  }

  /** __ac_iseither and its two one-bit forms read this cell. */
  function CellAt(flags: seq<bv32>, i: nat): Cell
    requires i / 16 < |flags|
  {
    CellOf(BitsAt(flags[i / 16], Shift(i)))
  }

  // ---- One word ----

  lemma ClearBits(w: bv32, bits: bv32, a: bv32, b: bv32)
    requires bits <= 3 && a & 1 == 0 && a < 32 && b & 1 == 0 && b < 32
    ensures BitsAt(ClearAt(w, bits, a), a) == BitsAt(w, a) & !bits
    ensures a != b ==> BitsAt(ClearAt(w, bits, a), b) == BitsAt(w, b)
  {
  }

  lemma SetBits(w: bv32, bits: bv32, a: bv32, b: bv32)
    requires bits <= 3 && a & 1 == 0 && a < 32 && b & 1 == 0 && b < 32
    ensures BitsAt(SetAt(w, bits, a), a) == BitsAt(w, a) | bits
    ensures a != b ==> BitsAt(SetAt(w, bits, a), b) == BitsAt(w, b)
  {
  }

  lemma SameWord(i: nat, j: nat)
    requires i / 16 == j / 16 && i != j
    ensures i % 16 != j % 16
  {
  }

  lemma ClearOther(w: bv32, bits: bv32, i: nat, j: nat)
    requires bits <= 3 && i % 16 != j % 16
    ensures BitsAt(ClearAt(w, bits, Shift(i)), Shift(j)) == BitsAt(w, Shift(j))
  {
    hide Shift, BitsAt, ClearAt;
    DistinctShifts(i, j);
    ClearBits(w, bits, Shift(i), Shift(j));
  }

  lemma SetOther(w: bv32, bits: bv32, i: nat, j: nat)
    requires bits <= 3 && i % 16 != j % 16
    ensures BitsAt(SetAt(w, bits, Shift(i)), Shift(j)) == BitsAt(w, Shift(j))
  {
    hide Shift, BitsAt, SetAt;
    DistinctShifts(i, j);
    SetBits(w, bits, Shift(i), Shift(j));
  }

  /** Rewriting the word of bucket i in a way that keeps the other shifts changes no other bucket. */
  lemma OneBucket(flags: seq<bv32>, i: nat, word: bv32, j: nat)
    requires i / 16 < |flags| && j / 16 < |flags| && i != j
    requires i % 16 != j % 16 ==> BitsAt(word, Shift(j)) == BitsAt(flags[i / 16], Shift(j))
    ensures CellAt(flags[i / 16 := word], j) == CellAt(flags, j)
  {
    hide Shift, BitsAt, CellOf;
    if i / 16 == j / 16 { SameWord(i, j); }
  }

  lemma FillIsEmpty(a: bv32)
    requires a & 1 == 0 && a < 32
    ensures BitsAt(0xAAAA_AAAA, a) == 2
  {
  }

  lemma BitsOfCells(bits: bv32)
    requires bits <= 3
    ensures CellOf(bits & !1) == match CellOf(bits) { case Live => Live case Deleted => Live case _ => Empty }
    ensures CellOf(bits & !2) == match CellOf(bits) { case Live => Live case Empty => Live case _ => Deleted }
    ensures CellOf(bits & !3) == Live
    ensures CellOf(bits | 1) == match CellOf(bits) { case Live => Deleted case Deleted => Deleted case _ => Both }
  {
  }

  lemma BitsAreTwo(word: bv32, s: bv32)
    requires s < 32
    ensures BitsAt(word, s) <= 3
  {
    LowBits(word >> s);
  }

  lemma LowBits(w: bv32)
    ensures w & 3 <= 3
  {
  }

  // ---- Setters on the packed array: each changes its own bucket only ----

  method SetIsDelTrue(flags: array<bv32>, i: nat)
    requires i / 16 < flags.Length
    modifies flags
    ensures CellAt(flags[..], i) ==
      match old(CellAt(flags[..], i)) { case Live => Deleted case Deleted => Deleted case _ => Both }
    ensures forall j: nat :: j / 16 < flags.Length && j != i ==> CellAt(flags[..], j) == old(CellAt(flags[..], j))
  {
    hide Shift, BitsAt, SetAt, CellOf;
    ghost var was := flags[..];
    flags[i / 16] := SetAt(flags[i / 16], 1, Shift(i));
    assert flags[..] == was[i / 16 := SetAt(was[i / 16], 1, Shift(i))];
    BitsAreTwo(was[i / 16], Shift(i));
    BitsOfCells(BitsAt(was[i / 16], Shift(i)));
    forall j: nat | j / 16 < |was| && j != i
      ensures CellAt(flags[..], j) == CellAt(was, j)
    {
      if i % 16 != j % 16 { SetOther(was[i / 16], 1, i, j); }
      OneBucket(was, i, SetAt(was[i / 16], 1, Shift(i)), j);
    }
    SetBits(was[i / 16], 1, Shift(i), Shift(i));
  }

  method SetIsEmptyFalse(flags: array<bv32>, i: nat)
    requires i / 16 < flags.Length
    modifies flags
    ensures CellAt(flags[..], i) ==
      match old(CellAt(flags[..], i)) { case Live => Live case Empty => Live case _ => Deleted }
    ensures forall j: nat :: j / 16 < flags.Length && j != i ==> CellAt(flags[..], j) == old(CellAt(flags[..], j))
  {
    hide Shift, BitsAt, ClearAt, CellOf;
    ghost var was := flags[..];
    flags[i / 16] := ClearAt(flags[i / 16], 2, Shift(i));
    assert flags[..] == was[i / 16 := ClearAt(was[i / 16], 2, Shift(i))];
    BitsAreTwo(was[i / 16], Shift(i));
    BitsOfCells(BitsAt(was[i / 16], Shift(i)));
    forall j: nat | j / 16 < |was| && j != i
      ensures CellAt(flags[..], j) == CellAt(was, j)
    {
      if i % 16 != j % 16 { ClearOther(was[i / 16], 2, i, j); }
      OneBucket(was, i, ClearAt(was[i / 16], 2, Shift(i)), j);
    }
    ClearBits(was[i / 16], 2, Shift(i), Shift(i));
  }

  method SetIsBothFalse(flags: array<bv32>, i: nat)
    requires i / 16 < flags.Length
    modifies flags
    ensures CellAt(flags[..], i) == Live
    ensures forall j: nat :: j / 16 < flags.Length && j != i ==> CellAt(flags[..], j) == old(CellAt(flags[..], j))
  {
    hide Shift, BitsAt, ClearAt, CellOf;
    ghost var was := flags[..];
    flags[i / 16] := ClearAt(flags[i / 16], 3, Shift(i));
    assert flags[..] == was[i / 16 := ClearAt(was[i / 16], 3, Shift(i))];
    BitsAreTwo(was[i / 16], Shift(i));
    BitsOfCells(BitsAt(was[i / 16], Shift(i)));
    forall j: nat | j / 16 < |was| && j != i
      ensures CellAt(flags[..], j) == CellAt(was, j)
    {
      if i % 16 != j % 16 { ClearOther(was[i / 16], 3, i, j); }
      OneBucket(was, i, ClearAt(was[i / 16], 3, Shift(i)), j);
    }
    ClearBits(was[i / 16], 3, Shift(i), Shift(i));
  }

  /** memset(flags, 0xaa, ...): every bucket of every word is empty. */
  lemma FilledIsEmpty(flags: seq<bv32>, i: nat)
    requires i / 16 < |flags| && flags[i / 16] == 0xAAAA_AAAA
    ensures CellAt(flags, i) == Empty
  {
    FillIsEmpty(Shift(i));
  }

  method FillEmpty(flags: array<bv32>)
    modifies flags
    ensures forall j: nat :: j / 16 < flags.Length ==> CellAt(flags[..], j) == Empty
  {
    var k := 0;
    while k < flags.Length
      invariant k <= flags.Length
      invariant forall m :: 0 <= m < k ==> flags[m] == 0xAAAA_AAAA
    {
      flags[k] := 0xAAAA_AAAA;
      k := k + 1;
    }
    forall j: nat | j / 16 < flags.Length
      ensures CellAt(flags[..], j) == Empty
    {
      FilledIsEmpty(flags[..], j);
    }
  }
}
