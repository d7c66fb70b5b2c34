/** kroundup32 of khash.h: computed on 32-bit vectors as the macro does, and carried over to
    the bucket counts, which are natural numbers here. */
module RoundUp {
  function Pow2(k: nat): (p: nat)
    ensures p >= 1
  {
    if k == 0 then 1 else 2 * Pow2(k - 1)
  }

  lemma {:induction false} Pow2Grows(j: nat, k: nat)
    requires j <= k
    ensures Pow2(j) <= Pow2(k)
    ensures j < k ==> 2 * Pow2(j) <= Pow2(k)
    decreases k
  {
    if j < k { Pow2Grows(j, k - 1); }
  }

  // ---- The macro ----

  function RoundUpWord(x: bv32): bv32 {
    var x := x - 1;
    var x := x | (x >> 1);
    var x := x | (x >> 2);
    var x := x | (x >> 4);
    var x := x | (x >> 8);
    var x := x | (x >> 16);
    x + 1
  }

  predicate IsPowerWord(p: bv32) { p != 0 && p & (p - 1) == 0 }

  lemma RoundUpWordIsPower(x: bv32)
    requires x != 0 && x <= 0x8000_0000
    ensures IsPowerWord(RoundUpWord(x)) && x <= RoundUpWord(x) <= 0x8000_0000 && !(x <= Half(RoundUpWord(x)))
  {
  }

  lemma RoundUpWordWraps(x: bv32)
    requires x == 0 || !(x <= 0x8000_0000)
    ensures RoundUpWord(x) == 0
  {
  }

  // ---- Words and numbers ----

  function Half(w: bv32): bv32 { w >> 1 }

  function LowBit(w: bv32): (b: nat)
    ensures b <= 1
  {
    if Odd(w) then 1 else 0
  }

  predicate Odd(w: bv32) { w & 1 == 1 }

  function Join(w: bv32, bit: nat): bv32 { (w << 1) | if bit == 1 then 1 else 0 }

  lemma HalfIsLess(w: bv32)
    requires w != 0
    ensures Half(w) < w
  {
  }

  /** The number a word holds. */
  function Value(w: bv32): nat
    decreases w
  {
    if w == 0 then 0
    else
      HalfIsLess(w);
      2 * Value(Half(w)) + LowBit(w)
  }

  /** The word that holds a number, built from its binary digits. */
  function Word(n: nat): bv32 {
    if n == 0 then 0 else Join(Word(n / 2), n % 2)
  }

  lemma HalvesAreOrdered(v: bv32, w: bv32)
    requires v <= w
    ensures Half(v) <= Half(w)
    ensures Half(v) == Half(w) && Odd(v) ==> Odd(w)
  {
  }

  lemma HalvesDetermine(v: bv32, w: bv32)
    requires Half(v) == Half(w) && Odd(v) == Odd(w)
    ensures v == w
  {
  }

  lemma ZeroHalves()
    ensures Half(0) == 0 && !Odd(0)
  {
  }

  /** The recursion also holds at 0. */
  lemma ValueSplits(w: bv32)
    ensures Value(w) == 2 * Value(Half(w)) + LowBit(w)
  {
    hide Half, Odd;
    if w == 0 { ZeroHalves(); }
  }

  lemma {:induction false} NonzeroIsPositive(w: bv32)
    requires w != 0
    ensures Value(w) > 0
    decreases w
  {
    hide Half, Odd;
    HalfIsLess(w);
    if Half(w) != 0 {
      NonzeroIsPositive(Half(w));
    } else {
      ZeroHalves();
      if !Odd(w) { HalvesDetermine(w, 0); }
    }
  }

  lemma {:induction false} ValueIsInjective(v: bv32, w: bv32)
    requires Value(v) == Value(w)
    ensures v == w
    decreases v
  {
    hide Half, Odd;
    ValueSplits(v);
    ValueSplits(w);
    if v != 0 {
      HalfIsLess(v);
      ValueIsInjective(Half(v), Half(w));
      HalvesDetermine(v, w);
    } else if w != 0 {
      NonzeroIsPositive(w);
    }
  }

  lemma {:induction false} ValueIsMonotonic(v: bv32, w: bv32)
    requires v <= w
    ensures Value(v) <= Value(w)
    decreases w
  {
    hide Half, Odd;
    if v != 0 && w != 0 {
      HalfIsLess(w);
      HalvesAreOrdered(v, w);
      ValueIsMonotonic(Half(v), Half(w));
      if Value(Half(v)) == Value(Half(w)) { ValueIsInjective(Half(v), Half(w)); }
    } else if v != 0 {
      NothingBelowZero(v);
    }
  }

  lemma NothingBelowZero(v: bv32)
    requires v <= 0
    ensures v == 0
  {
  }

  lemma OrderIsTotal(v: bv32, w: bv32)
    ensures v <= w || w <= v
  {
  }

  lemma ValueOrder(v: bv32, w: bv32)
    ensures v <= w <==> Value(v) <= Value(w)
  {
    hide Value;
    if v <= w {
      ValueIsMonotonic(v, w);
    } else {
      OrderIsTotal(v, w);
      ValueIsMonotonic(w, v);
      if Value(v) == Value(w) { ValueIsInjective(v, w); }
    }
  }

  lemma JoinSplits(w: bv32, bit: nat)
    requires w < 0x8000_0000 && bit <= 1
    ensures Half(Join(w, bit)) == w && LowBit(Join(w, bit)) == bit
    ensures Join(w, bit) == 0 ==> w == 0 && bit == 0
  {
  }

  lemma ValueOfDouble(w: bv32, double: bv32)
    requires w < 0x8000_0000 && double == Join(w, 0)
    ensures Value(double) == 2 * Value(w)
  {
    JoinSplits(w, 0);
  }

  lemma ValueOfTopBit()
    ensures Value(0x8000_0000) == 0x8000_0000
  {
    ValueOfDouble(0x4000_0000, 0x8000_0000); ValueOfDouble(0x2000_0000, 0x4000_0000);
    ValueOfDouble(0x1000_0000, 0x2000_0000); ValueOfDouble(0x800_0000, 0x1000_0000);
    ValueOfDouble(0x400_0000, 0x800_0000); ValueOfDouble(0x200_0000, 0x400_0000);
    ValueOfDouble(0x100_0000, 0x200_0000); ValueOfDouble(0x80_0000, 0x100_0000);
    ValueOfDouble(0x40_0000, 0x80_0000); ValueOfDouble(0x20_0000, 0x40_0000);
    ValueOfDouble(0x10_0000, 0x20_0000); ValueOfDouble(0x8_0000, 0x10_0000);
    ValueOfDouble(0x4_0000, 0x8_0000); ValueOfDouble(0x2_0000, 0x4_0000);
    ValueOfDouble(0x1_0000, 0x2_0000); ValueOfDouble(0x8000, 0x1_0000);
    ValueOfDouble(0x4000, 0x8000); ValueOfDouble(0x2000, 0x4000);
    ValueOfDouble(0x1000, 0x2000); ValueOfDouble(0x800, 0x1000);
    ValueOfDouble(0x400, 0x800); ValueOfDouble(0x200, 0x400);
    ValueOfDouble(0x100, 0x200); ValueOfDouble(0x80, 0x100);
    ValueOfDouble(0x40, 0x80); ValueOfDouble(0x20, 0x40);
    ValueOfDouble(0x10, 0x20); ValueOfDouble(8, 0x10);
    ValueOfDouble(4, 8); ValueOfDouble(2, 4); ValueOfDouble(1, 2);
    assert Value(1) == 1;
  }

  lemma {:induction false} ValueOfWord(n: nat)
    requires n < 0x1_0000_0000
    ensures Value(Word(n)) == n
  {
    hide Half, LowBit, Join;
    if n != 0 {
      var w := Word(n / 2);
      ValueOfWord(n / 2);
      BelowTopBit(w);
      JoinSplits(w, n % 2);
    }
  }

  lemma BelowTopBit(w: bv32)
    requires Value(w) < 0x8000_0000
    ensures w < 0x8000_0000
  {
    hide Value;
    ValueOfTopBit();
    ValueOrder(0x8000_0000, w);
  }

  lemma PowerHalves(p: bv32)
    requires IsPowerWord(p)
    ensures p == 1 || (LowBit(p) == 0 && IsPowerWord(Half(p)))
  {
  }

  lemma ValueOfOne()
    ensures Value(1) == 1
  {
  }

  lemma {:induction false} PowerWordIsPow2(p: bv32)
    requires IsPowerWord(p)
    ensures exists k: nat :: Value(p) == Pow2(k)
    decreases p
  {
    hide Half, LowBit;
    PowerHalves(p);
    if p == 1 {
      ValueOfOne();
      assert Value(p) == Pow2(0);
    } else {
      HalfIsLess(p);
      PowerWordIsPow2(Half(p));
      var k: nat :| Value(Half(p)) == Pow2(k);
      assert Value(p) == Pow2(k + 1);
    }
  }

  // ---- kroundup32 on numbers ----

  ghost predicate IsPow2(n: nat) { exists k: nat :: n == Pow2(k) }

  function RoundUp32(n: nat): nat { Value(RoundUpWord(Word(n))) }

  lemma RoundedAbove(x: bv32)
    requires x != 0 && x <= 0x8000_0000
    ensures Value(x) <= Value(RoundUpWord(x)) && Value(RoundUpWord(x)) <= Value(0x8000_0000)
  {
    hide RoundUpWord, Half, Value, IsPowerWord;
    RoundUpWordIsPower(x);
    ValueIsMonotonic(x, RoundUpWord(x));
    ValueIsMonotonic(RoundUpWord(x), 0x8000_0000);
  }

  lemma RoundedHalfBelow(x: bv32)
    requires x != 0 && x <= 0x8000_0000
    ensures Value(Half(RoundUpWord(x))) < Value(x)
  {
    hide RoundUpWord, Half, Value, IsPowerWord;
    RoundUpWordIsPower(x);
    ValueOrder(x, Half(RoundUpWord(x)));
  }

  lemma RoundedIsPow2(x: bv32)
    requires x != 0 && x <= 0x8000_0000
    ensures IsPow2(Value(RoundUpWord(x)))
    ensures Value(RoundUpWord(x)) == 1 || Value(RoundUpWord(x)) == 2 * Value(Half(RoundUpWord(x)))
  {
    hide RoundUpWord, Half, Value, IsPowerWord;
    RoundUpWordIsPower(x);
    PowerWordIsPow2(RoundUpWord(x));
    PowerIsEvenOrOne(RoundUpWord(x));
  }

  /** From 1 to 2^31 the macro gives a power of two at or above n whose half is below n: the
      least one.  Everything else gives 0. */
  lemma RoundUpIsLeastPow2(n: nat)
    requires n < 0x1_0000_0000
    ensures 1 <= n <= 0x8000_0000 ==>
      IsPow2(RoundUp32(n)) && n <= RoundUp32(n) < 2 * n && RoundUp32(n) <= 0x8000_0000
    ensures !(1 <= n <= 0x8000_0000) ==> RoundUp32(n) == 0
  {
    hide RoundUpWord, Word, Value, Half, IsPow2;
    var x := Word(n);
    ValueOfWord(n);
    ValueOfTopBit();
    ValueOfZero();
    ValueOrder(x, 0x8000_0000);
    if x == 0 || !(x <= 0x8000_0000) {
      RoundUpWordWraps(x);
    } else {
      if n == 0 { ValueIsInjective(x, 0); }
      RoundedAbove(x);
      RoundedHalfBelow(x);
      RoundedIsPow2(x);
    }
  }

  lemma ValueOfZero()
    ensures Value(0) == 0
  {
  }

  lemma PowerIsEvenOrOne(r: bv32)
    requires IsPowerWord(r)
    ensures Value(r) == 1 || Value(r) == 2 * Value(Half(r))
  {
    hide Half, LowBit;
    PowerHalves(r);
    ValueOfOne();
  }
}
