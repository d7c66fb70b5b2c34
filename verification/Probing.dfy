/** Triangular probing: `i = (i + (++step)) & mask` over a power-of-two number of buckets. */
module Probing {
  import opened RoundUp

  /** The bucket examined after j advances, for a key with hash h. */
  function Probe(h: nat, n: nat, j: nat): (i: nat)
    requires n > 0
    ensures i < n
  {
    if j == 0 then h % n else (Probe(h, n, j - 1) + j) % n
  }

  function Triangle(j: nat): nat {
    if j == 0 then 0 else Triangle(j - 1) + j
  }

  lemma {:induction false} TriangleGap(a: nat, b: nat)
    requires a <= b
    ensures Triangle(a) <= Triangle(b)
    ensures 2 * (Triangle(b) - Triangle(a)) == (b - a) * (a + b + 1)
    decreases b
  {
    if a < b { TriangleGap(a, b - 1); }
  }

  /** n divides the distance between a number and its remainder. */
  lemma RemainderGap(x: nat, n: nat) returns (q: nat)
    requires n > 0
    ensures x == n * q + x % n
  {
    q := x / n;
  }

  lemma MulOfSum(n: nat, p: nat, d: nat)
    ensures n * (p + d) == n * p + n * d
  {
  }

  lemma MulAtLeast(n: nat, d: nat)
    requires d >= 1
    ensures n * d >= n
  {
    MulOfSum(n, d - 1, 1);
  }

  lemma MulStep(n: nat, p: nat, q: nat)
    requires p < q
    ensures n * p + n <= n * q
  {
    MulOfSum(n, p, q - p);
    MulAtLeast(n, q - p);
  }

  /** Adding before or after taking remainders is the same. */
  lemma {:induction false} ProbeIsTriangle(h: nat, n: nat, j: nat) returns (q: nat)
    requires n > 0
    ensures h + Triangle(j) == n * q + Probe(h, n, j)
    decreases j
  {
    if j == 0 {
      q := RemainderGap(h, n);
    } else {
      var p := ProbeIsTriangle(h, n, j - 1);
      var r := RemainderGap(Probe(h, n, j - 1) + j, n);
      q := p + r;
      MulOfSum(n, p, r);
    }
  }

  /** An odd factor takes no power of two with it. */
  lemma {:induction false} OddFactor(x: nat, y: nat, m: nat, q: nat) returns (p: nat)
    requires x % 2 == 1 && x * y == Pow2(m) * q
    ensures y == Pow2(m) * p
    decreases m
  {
    if m == 0 {
      p := y;
    } else {
      var half := Pow2(m - 1) * q;
      assert x * y == 2 * half by { assert Pow2(m) * q == 2 * Pow2(m - 1) * q; }
      OddTimesEven(x, y, half);
      var y' := y / 2;
      assert y == 2 * y';
      assert 2 * (x * y') == x * y;
      p := OddFactor(x, y', m - 1, q);
      assert y == 2 * (Pow2(m - 1) * p);
      assert 2 * (Pow2(m - 1) * p) == Pow2(m) * p;
    }
  }

  lemma OddTimesOdd(a: nat, b: nat)
    ensures (2 * a + 1) * (2 * b + 1) == 2 * (2 * a * b + a + b) + 1
  {
  }

  lemma OddTimesEven(x: nat, y: nat, half: nat)
    requires x % 2 == 1 && x * y == 2 * half
    ensures y % 2 == 0
  {
    if y % 2 == 1 { OddTimesOdd(x / 2, y / 2); }
  }

  /** Two positive factors below 2^m, one of them odd, do not multiply to a multiple of 2^m. */
  lemma NotMultiple(d: nat, s: nat, m: nat, t: nat)
    requires 0 < d < Pow2(m) && 0 < s < Pow2(m) && (d % 2 == 1 || s % 2 == 1)
    ensures d * s != Pow2(m) * t
  {
    if d * s == Pow2(m) * t {
      var f: nat;
      if d % 2 == 1 {
        f := OddFactor(d, s, m, t);
      } else {
        f := OddFactor(s, d, m, t);
      }
      MulAtLeast(Pow2(m), f);
    }
  }

  lemma EqualProbesGap(h: nat, n: nat, a: nat, b: nat) returns (t: nat)
    requires n > 0 && a <= b && Probe(h, n, a) == Probe(h, n, b)
    ensures (b - a) * (a + b + 1) == 2 * (n * t)
  {
    hide Probe, Triangle;
    var p := ProbeIsTriangle(h, n, a);
    var q := ProbeIsTriangle(h, n, b);
    TriangleGap(a, b);
    if q < p { MulStep(n, q, p); }
    t := q - p;
    MulOfSum(n, p, t);
  }

  lemma DoublePow2(k: nat, t: nat)
    ensures Pow2(k + 1) == 2 * Pow2(k) && 2 * (Pow2(k) * t) == Pow2(k + 1) * t
  {
  }

  /** The first 2^k probes of a sequence are pairwise distinct. */
  lemma ProbesAreDistinct(h: nat, k: nat, a: nat, b: nat)
    requires a < b < Pow2(k)
    ensures Probe(h, Pow2(k), a) != Probe(h, Pow2(k), b)
  {
    hide Probe, Pow2;
    if Probe(h, Pow2(k), a) == Probe(h, Pow2(k), b) {
      var t := EqualProbesGap(h, Pow2(k), a, b);
      DoublePow2(k, t);
      NotMultiple(b - a, a + b + 1, k + 1, t);
    }
  }

  // ---- Every bucket is reached ----

  ghost function ProbeSet(h: nat, n: nat, j: nat): (s: set<nat>)
    requires n > 0
  {
    if j == 0 then {} else ProbeSet(h, n, j - 1) + {Probe(h, n, j - 1)}
  }

  lemma {:induction false} ProbeSetElements(h: nat, n: nat, j: nat, i: nat) returns (step: nat)
    requires n > 0 && i in ProbeSet(h, n, j)
    ensures step < j && Probe(h, n, step) == i
    decreases j
  {
    if i == Probe(h, n, j - 1) {
      step := j - 1;
    } else {
      step := ProbeSetElements(h, n, j - 1, i);
    }
  }

  lemma {:induction false} ProbeSetSize(h: nat, k: nat, j: nat)
    requires j <= Pow2(k)
    ensures |ProbeSet(h, Pow2(k), j)| == j
    ensures forall i :: i in ProbeSet(h, Pow2(k), j) ==> i < Pow2(k)
    decreases j
  {
    if j > 0 {
      ProbeSetSize(h, k, j - 1);
      if Probe(h, Pow2(k), j - 1) in ProbeSet(h, Pow2(k), j - 1) {
        var step := ProbeSetElements(h, Pow2(k), j - 1, Probe(h, Pow2(k), j - 1));
        ProbesAreDistinct(h, k, step, j - 1);
      }
    }
  }

  lemma {:induction false} Numbers(n: nat) returns (all: set<nat>)
    ensures |all| == n && forall i: nat :: i in all <==> i < n
  {
    if n == 0 {
      all := {};
    } else {
      var rest := Numbers(n - 1);
      all := rest + {n - 1};
    }
  }

  lemma FullSubset(s: set<nat>, n: nat)
    requires |s| == n && forall i :: i in s ==> i < n
    ensures forall i: nat :: i < n ==> i in s
  {
    var all := Numbers(n);
    assert s <= all;
    assert all == s + (all - s);
    assert |all - s| == 0;
  }

  /** The first 2^k probes visit all 2^k buckets. */
  lemma EveryBucketIsProbed(h: nat, k: nat, i: nat) returns (step: nat)
    requires i < Pow2(k)
    ensures step < Pow2(k) && Probe(h, Pow2(k), step) == i
  {
    ProbeSetSize(h, k, Pow2(k));
    FullSubset(ProbeSet(h, Pow2(k), Pow2(k)), Pow2(k));
    step := ProbeSetElements(h, Pow2(k), Pow2(k), i);
  }

  /** A probe sequence does not come back to its first bucket within 2^k probes, so the
      loops that give up when `i == last` do so only after seeing every bucket. */
  lemma NoEarlyReturn(h: nat, k: nat, j: nat)
    requires 0 < j < Pow2(k)
    ensures Probe(h, Pow2(k), j) != Probe(h, Pow2(k), 0)
  {
    ProbesAreDistinct(h, k, 0, j);
  }
}
