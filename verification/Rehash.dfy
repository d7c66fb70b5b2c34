/** The in-place rehash of kh_resize.  Old and new layout share the key and value arrays: a
    position belongs to the old layout while its old flag is live, to the new one once its new
    flag is, and never to both. */
module Rehash {
  import opened Flags
  import opened Probing
  import opened RoundUp
  import opened Buckets

  /** The cells of the first n buckets. */
  ghost function CellsOf(flags: seq<bv32>, n: nat): (cells: seq<Cell>)
    requires n <= 16 * |flags|
    ensures |cells| == n
  {
    seq(n, i requires 0 <= i < n => CellAt(flags, i))
  }

  /** __ac_fsize: flag words for n buckets. */
  function FSize(n: nat): nat { if n < 16 then 1 else n / 16 }

  lemma {:induction false} FSizeCovers(k: nat)
    ensures Pow2(k) <= 16 * FSize(Pow2(k)) < Pow2(k) + 16
  {
    if k >= 4 {
      Pow2IsMultiple(k - 4);
    } else {
      Pow2Grows(k, 3);
      assert Pow2(3) == 8;
    }
  }

  lemma Pow2IsMultiple(k: nat)
    ensures Pow2(k + 4) == 16 * Pow2(k)
  {
    assert Pow2(k + 1) == 2 * Pow2(k);
    assert Pow2(k + 2) == 2 * Pow2(k + 1);
    assert Pow2(k + 3) == 2 * Pow2(k + 2);
  }

  // ---- Flag setters in terms of cells ----

  method MarkDeleted(flags: array<bv32>, n: nat, i: nat)
    requires i < n <= 16 * flags.Length && CellAt(flags[..], i) == Live
    modifies flags
    ensures CellsOf(flags[..], n) == old(CellsOf(flags[..], n))[i := Deleted]
  {
    hide CellAt;
    SetIsDelTrue(flags, i);
  }

  method MarkUsed(flags: array<bv32>, n: nat, i: nat)
    requires i < n <= 16 * flags.Length && CellAt(flags[..], i) == Empty
    modifies flags
    ensures CellsOf(flags[..], n) == old(CellsOf(flags[..], n))[i := Live]
  {
    hide CellAt;
    SetIsEmptyFalse(flags, i);
  }

  // ---- The invariant of the move ----

  /** Positions that hold an entry, in either layout. */
  ghost function Held(was: seq<Cell>, now: seq<Cell>): set<nat> { LiveSet(was) + LiveSet(now) }

  ghost predicate EmptyOrLive(cells: seq<Cell>) {
    forall i :: 0 <= i < |cells| ==> cells[i] == Empty || cells[i] == Live
  }

  ghost predicate Shared(was: seq<Cell>, now: seq<Cell>, keys: seq<Key>, vals: seq<int>, hash: Hash) {
    && |keys| == |vals| && |was| <= |keys| && 0 < |now| <= |keys|
    && LiveSet(was) !! LiveSet(now)
    && Distinct(keys, Held(was, now))
    && EmptyOrLive(now)
    && AllReachable(now, keys, hash)
  }

  /** An entry is taken out of the old layout and into the hand. */
  lemma TakeInHand(was: seq<Cell>, now: seq<Cell>, keys: seq<Key>, vals: seq<int>, hash: Hash, j: nat)
    requires Shared(was, now, keys, vals, hash) && j < |was| && was[j] == Live
    ensures
      var was' := was[j := Deleted];
      && Shared(was', now, keys, vals, hash)
      && LiveSet(was') == LiveSet(was) - {j}
      && Absent(keys, Held(was', now), keys[j])
      && MapAt(keys, vals, Held(was, now)) == MapAt(keys, vals, Held(was', now))[keys[j] := vals[j]]
  {
    hide Distinct, MapAt, Absent, AllReachable, PathFull, LiveSet, OccupiedSet, Probe, NoNewEmpty;
    CellIsDeleted(was, j);
    TakeOut(keys, vals, Held(was, now), j);
    assert Held(was[j := Deleted], now) == Held(was, now) - {j};
  }

  /** The entry in hand goes to an empty new bucket whose position still holds an old entry,
      and that one comes into the hand. */
  lemma Kick(was: seq<Cell>, now: seq<Cell>, keys: seq<Key>, vals: seq<int>, hash: Hash,
             key: Key, val: int, s: nat)
    requires Shared(was, now, keys, vals, hash) && Absent(keys, Held(was, now), key)
    requires PathFull(now, hash(key), s)
    requires
      var i := Probe(hash(key), |now|, s);
      now[i] == Empty && i < |was| && was[i] == Live
    ensures
      var i := Probe(hash(key), |now|, s);
      var was', now', keys', vals' := was[i := Deleted], now[i := Live], keys[i := key], vals[i := val];
      && Shared(was', now', keys', vals', hash)
      && LiveSet(was') == LiveSet(was) - {i} && |LiveSet(was')| == |LiveSet(was)| - 1
      && Held(was', now') == Held(was, now)
      && Absent(keys', Held(was', now'), keys[i])
      && MapAt(keys', vals', Held(was', now'))[keys[i] := vals[i]] == MapAt(keys, vals, Held(was, now))[key := val]
  {
    hide Distinct, MapAt, Absent, AllReachable, PathFull, LiveSet, OccupiedSet, Probe, NoNewEmpty;
    var i := Probe(hash(key), |now|, s);
    CellIsDeleted(was, i);
    CellBecomesLive(now, i);
    assert Held(was[i := Deleted], now[i := Live]) == Held(was, now);
    SwapAt(keys, vals, Held(was, now), i, key, val);
    StoreKeepsReachable(now, keys, hash, key, s);
  }

  /** The entry in hand goes to an empty new bucket whose position is free. */
  lemma Settle(was: seq<Cell>, now: seq<Cell>, keys: seq<Key>, vals: seq<int>, hash: Hash,
               key: Key, val: int, s: nat)
    requires Shared(was, now, keys, vals, hash) && Absent(keys, Held(was, now), key)
    requires PathFull(now, hash(key), s)
    requires
      var i := Probe(hash(key), |now|, s);
      now[i] == Empty && !(i < |was| && was[i] == Live)
    ensures
      var i := Probe(hash(key), |now|, s);
      var now', keys', vals' := now[i := Live], keys[i := key], vals[i := val];
      && Shared(was, now', keys', vals', hash)
      && Held(was, now') == Held(was, now) + {i} && i !in Held(was, now)
      && MapAt(keys', vals', Held(was, now')) == MapAt(keys, vals, Held(was, now))[key := val]
  {
    hide Distinct, MapAt, Absent, AllReachable, PathFull, LiveSet, OccupiedSet, Probe, NoNewEmpty;
    var i := Probe(hash(key), |now|, s);
    CellBecomesLive(now, i);
    assert i !in LiveSet(was) by { NotLive(was, i); }
    assert Held(was, now[i := Live]) == Held(was, now) + {i};
    StoreAt(keys, vals, Held(was, now), i, key, val);
    StoreKeepsReachable(now, keys, hash, key, s);
  }

  lemma NotLive(cells: seq<Cell>, i: nat)
    requires !(i < |cells| && cells[i] == Live)
    ensures i !in LiveSet(cells)
  {
  }

  lemma NowHasRoom(was: seq<Cell>, now: seq<Cell>, keys: seq<Key>, vals: seq<int>, hash: Hash)
    requires Shared(was, now, keys, vals, hash)
    ensures OccupiedSet(now) == LiveSet(now)
    ensures |Held(was, now)| == |LiveSet(was)| + |LiveSet(now)|
  {
    assert OccupiedSet(now) == LiveSet(now);
  }

  // ---- The loops ----

  lemma OneMoreProbe(cells: seq<Cell>, h: nat, s: nat)
    requires |cells| > 0 && PathFull(cells, h, s) && cells[Probe(h, |cells|, s)] != Empty
    ensures PathFull(cells, h, s + 1)
    ensures Probe(h, |cells|, s + 1) == (Probe(h, |cells|, s) + (s + 1)) % |cells|
  {
  }

  lemma FirstProbe(cells: seq<Cell>, h: nat)
    requires |cells| > 0
    ensures Probe(h, |cells|, 0) == h % |cells| && PathFull(cells, h, 0)
  {
  }

  /** `while (!__ac_isempty(new_flags, i)) i = (i + (++step)) & new_mask` */
  method ProbeForEmpty(flags: array<bv32>, n: nat, h: nat, ghost k: nat) returns (i: nat, ghost s: nat)
    requires n == Pow2(k) <= 16 * flags.Length
    requires EmptyOrLive(CellsOf(flags[..], n))
    requires |OccupiedSet(CellsOf(flags[..], n))| < n
    ensures i < n && i == Probe(h, n, s)
    ensures CellAt(flags[..], i) == Empty
    ensures PathFull(CellsOf(flags[..], n), h, s)
  {
    hide CellAt, OccupiedSet, Pow2, Probe, PathFull;
    ghost var cells := CellsOf(flags[..], n);
    ghost var e := EmptyBucketAhead(cells, h, k);
    FirstProbe(cells, h);
    var step := 0;
    i := h % n;
    while CellAt(flags[..], i) != Empty && CellAt(flags[..], i) != Both
      invariant i == Probe(h, n, step) && step <= e
      invariant PathFull(cells, h, step)
      decreases e - step
    {
      OneMoreProbe(cells, h, step);
      step := step + 1;
      i := (i + step) % n;
    }
    assert cells[i] == CellAt(flags[..], i);
    s := step;
  }

  /** The state of the move with nothing in hand: `all` is the table's map. */
  ghost predicate Moving(was: seq<Cell>, now: seq<Cell>, keys: seq<Key>, vals: seq<int>, hash: Hash,
                         all: map<Key, int>, count: nat) {
    && Shared(was, now, keys, vals, hash)
    && MapAt(keys, vals, Held(was, now)) == all && |Held(was, now)| == count < |now|
  }

  /** The same with the entry (key, val) in hand. */
  ghost predicate InHand(was: seq<Cell>, now: seq<Cell>, keys: seq<Key>, vals: seq<int>, hash: Hash,
                         key: Key, val: int, all: map<Key, int>, count: nat) {
    && Shared(was, now, keys, vals, hash) && Absent(keys, Held(was, now), key)
    && MapAt(keys, vals, Held(was, now))[key := val] == all && |Held(was, now)| + 1 == count < |now|
  }

  lemma StartsInHand(was: seq<Cell>, now: seq<Cell>, keys: seq<Key>, vals: seq<int>, hash: Hash, j: nat,
                     all: map<Key, int>, count: nat)
    requires Moving(was, now, keys, vals, hash, all, count) && j < |was| && was[j] == Live
    ensures InHand(was[j := Deleted], now, keys, vals, hash, keys[j], vals[j], all, count)
    ensures LiveSet(was[j := Deleted]) == LiveSet(was) - {j}
  {
    hide Distinct, MapAt, Absent, AllReachable, PathFull, LiveSet, OccupiedSet, Probe, NoNewEmpty;
    TakeInHand(was, now, keys, vals, hash, j);
    NowHasRoom(was, now, keys, vals, hash);
    NowHasRoom(was[j := Deleted], now, keys, vals, hash);
    CellIsDeleted(was, j);
  }

  lemma KickKeepsInHand(was: seq<Cell>, now: seq<Cell>, keys: seq<Key>, vals: seq<int>, hash: Hash,
                        key: Key, val: int, s: nat, i: nat, all: map<Key, int>, count: nat)
    requires InHand(was, now, keys, vals, hash, key, val, all, count)
    requires PathFull(now, hash(key), s) && i == Probe(hash(key), |now|, s)
    requires now[i] == Empty && i < |was| && was[i] == Live
    ensures InHand(was[i := Deleted], now[i := Live], keys[i := key], vals[i := val], hash,
                   keys[i], vals[i], all, count)
    ensures LiveSet(was[i := Deleted]) == LiveSet(was) - {i} && |LiveSet(was[i := Deleted])| < |LiveSet(was)|
  {
    hide Distinct, MapAt, Absent, AllReachable, PathFull, LiveSet, OccupiedSet, Probe, NoNewEmpty, Shared;
    Kick(was, now, keys, vals, hash, key, val, s);
  }

  lemma SettleEndsMove(was: seq<Cell>, now: seq<Cell>, keys: seq<Key>, vals: seq<int>, hash: Hash,
                       key: Key, val: int, s: nat, i: nat, all: map<Key, int>, count: nat)
    requires InHand(was, now, keys, vals, hash, key, val, all, count)
    requires PathFull(now, hash(key), s) && i == Probe(hash(key), |now|, s)
    requires now[i] == Empty && !(i < |was| && was[i] == Live)
    ensures Moving(was, now[i := Live], keys[i := key], vals[i := val], hash, all, count)
  {
    hide Distinct, MapAt, Absent, AllReachable, PathFull, LiveSet, OccupiedSet, Probe, NoNewEmpty, Shared;
    Settle(was, now, keys, vals, hash, key, val, s);
  }

  lemma InHandHasRoom(was: seq<Cell>, now: seq<Cell>, keys: seq<Key>, vals: seq<int>, hash: Hash,
                      key: Key, val: int, all: map<Key, int>, count: nat)
    requires InHand(was, now, keys, vals, hash, key, val, all, count)
    ensures |OccupiedSet(now)| < |now| && EmptyOrLive(now)
    ensures |was| <= |keys| == |vals| && |now| <= |keys|
  {
    hide Distinct, MapAt, Absent, AllReachable, LiveSet, OccupiedSet;
    NowHasRoom(was, now, keys, vals, hash);
  }

  /** The arrays of a table are different objects. */
  predicate Apart(flags: array<bv32>, keys: array<Key>, vals: array<int>) {
    flags as object != keys && flags as object != vals && keys as object != vals
  }

  /** The kick-out process for the old entry at j: it may displace old entries in turn, each
      time leaving one fewer behind. */
  method KickOut(flags: array<bv32>, newFlags: array<bv32>, keys: array<Key>, vals: array<int>,
                 n: nat, m: nat, hash: Hash, j: nat,
                 ghost k: nat, ghost all: map<Key, int>, ghost count: nat)
    requires flags != newFlags && Apart(flags, keys, vals) && Apart(newFlags, keys, vals)
    requires n <= 16 * flags.Length && m == Pow2(k) <= 16 * newFlags.Length
    requires Moving(CellsOf(flags[..], n), CellsOf(newFlags[..], m), keys[..], vals[..], hash, all, count)
    requires j < n && CellAt(flags[..], j) == Live
    modifies flags, newFlags, keys, vals
    ensures Moving(CellsOf(flags[..], n), CellsOf(newFlags[..], m), keys[..], vals[..], hash, all, count)
    ensures LiveSet(CellsOf(flags[..], n)) <= old(LiveSet(CellsOf(flags[..], n))) - {j}
  {
    hide CellAt, InHand, EmptyOrLive, PathFull, LiveSet, OccupiedSet, Probe, Pow2, Held, Distinct, AllReachable;
    StartsInHand(CellsOf(flags[..], n), CellsOf(newFlags[..], m), keys[..], vals[..], hash, j, all, count);
    ghost var was0, now0, ks0, vs0 := CellsOf(flags[..], n), CellsOf(newFlags[..], m), keys[..], vals[..];
    var key, val := keys[j], vals[j];
    MarkDeleted(flags, n, j);
    assert keys[..] == ks0 && vals[..] == vs0 && CellsOf(newFlags[..], m) == now0;
    while true
      invariant InHand(CellsOf(flags[..], n), CellsOf(newFlags[..], m), keys[..], vals[..], hash, key, val, all, count)
      invariant LiveSet(CellsOf(flags[..], n)) <= LiveSet(was0) - {j}
      decreases |LiveSet(CellsOf(flags[..], n))|
    {
      ghost var was, now, ks, vs := CellsOf(flags[..], n), CellsOf(newFlags[..], m), keys[..], vals[..];
      InHandHasRoom(was, now, ks, vs, hash, key, val, all, count);
      var i, s := ProbeForEmpty(newFlags, m, hash(key), k);
      MarkUsed(newFlags, m, i);
      if i < n && CellAt(flags[..], i) == Live {
        KickKeepsInHand(was, now, ks, vs, hash, key, val, s, i, all, count);
        var key', val' := keys[i], vals[i];
        keys[i], vals[i] := key, val;
        key, val := key', val';
        MarkDeleted(flags, n, i);
        assert CellsOf(flags[..], n) == was[i := Deleted] && CellsOf(newFlags[..], m) == now[i := Live];
        assert keys[..] == ks[i := keys[i]] && vals[..] == vs[i := vals[i]];
      } else {
        SettleEndsMove(was, now, ks, vs, hash, key, val, s, i, all, count);
        keys[i] := key;
        vals[i] := val;
        assert CellsOf(flags[..], n) == was && CellsOf(newFlags[..], m) == now[i := Live];
        assert keys[..] == ks[i := key] && vals[..] == vs[i := val];
        break;
      }
    }
  }
}
