/** Open addressing seen from outside the packed arrays: which positions hold entries, the
    map they stand for, and when a probe sequence finds a position. */
module Buckets {
  import opened Flags
  import opened Probing
  import opened RoundUp

  /** khint32_t keys. */
  newtype Key = x: int | 0 <= x < 0x1_0000_0000

  type Hash = Key -> nat

  // ---- The map held at a set of positions ----

  ghost predicate Distinct(keys: seq<Key>, p: set<nat>) {
    && (forall i :: i in p ==> i < |keys|)
    && (forall i, j :: i in p && j in p && keys[i] == keys[j] ==> i == j)
  }

  ghost function MapAt(keys: seq<Key>, vals: seq<int>, p: set<nat>): (m: map<Key, int>)
    requires Distinct(keys, p) && |vals| == |keys|
  {
    map i | i in p :: keys[i] := vals[i]
  }

  lemma MapAtPosition(keys: seq<Key>, vals: seq<int>, p: set<nat>, i: nat)
    requires Distinct(keys, p) && |vals| == |keys| && i in p
    ensures keys[i] in MapAt(keys, vals, p) && MapAt(keys, vals, p)[keys[i]] == vals[i]
  {
  }

  lemma AbsentIsNotInMap(keys: seq<Key>, vals: seq<int>, p: set<nat>, key: Key)
    requires Distinct(keys, p) && |vals| == |keys|
    ensures Absent(keys, p, key) <==> key !in MapAt(keys, vals, p)
  {
  }

  /** key is at none of the positions. */
  ghost predicate Absent(keys: seq<Key>, p: set<nat>, key: Key) {
    forall i :: i in p && i < |keys| ==> keys[i] != key
  }

  /** Taking the entry at j out. */
  lemma TakeOut(keys: seq<Key>, vals: seq<int>, p: set<nat>, j: nat)
    requires Distinct(keys, p) && |vals| == |keys| && j in p
    ensures Distinct(keys, p - {j}) && Absent(keys, p - {j}, keys[j])
    ensures MapAt(keys, vals, p) == MapAt(keys, vals, p - {j})[keys[j] := vals[j]]
    ensures |p - {j}| == |p| - 1
  {
  }

  /** Storing an absent key at a free position. */
  lemma StoreAt(keys: seq<Key>, vals: seq<int>, p: set<nat>, i: nat, key: Key, val: int)
    requires Distinct(keys, p) && |vals| == |keys| && i < |keys| && i !in p
    requires Absent(keys, p, key)
    ensures Distinct(keys[i := key], p + {i})
    ensures MapAt(keys[i := key], vals[i := val], p + {i}) == MapAt(keys, vals, p)[key := val]
    ensures |p + {i}| == |p| + 1
  {
  }

  /** Exchanging the entry in hand with the one at i. */
  lemma SwapAt(keys: seq<Key>, vals: seq<int>, p: set<nat>, i: nat, key: Key, val: int)
    requires Distinct(keys, p) && |vals| == |keys| && i in p
    requires Absent(keys, p, key)
    ensures Distinct(keys[i := key], p) && Absent(keys[i := key], p, keys[i])
    ensures MapAt(keys[i := key], vals[i := val], p)[keys[i] := vals[i]] == MapAt(keys, vals, p)[key := val]
  {
  }

  // ---- Cells and reachability ----

  ghost function LiveSet(cells: seq<Cell>): set<nat> {
    set i: nat | i < |cells| && cells[i] == Live
  }

  ghost function OccupiedSet(cells: seq<Cell>): set<nat> {
    set i: nat | i < |cells| && cells[i] != Empty
  }

  /** None of the first s probes meets an empty bucket. */
  ghost predicate PathFull(cells: seq<Cell>, h: nat, s: nat)
    requires |cells| > 0
  {
    forall t: nat :: t < s ==> cells[Probe(h, |cells|, t)] != Empty
  }

  ghost predicate Reaches(cells: seq<Cell>, h: nat, i: nat)
    requires |cells| > 0
  {
    exists s: nat :: Probe(h, |cells|, s) == i && PathFull(cells, h, s)
  }

  /** Every live position is where the probe sequence of its key finds it. */
  ghost predicate AllReachable(cells: seq<Cell>, keys: seq<Key>, hash: Hash)
    requires |cells| <= |keys|
  {
    |cells| > 0 ==> forall i :: i in LiveSet(cells) ==> Reaches(cells, hash(keys[i]), i)
  }

  /** No bucket that had an entry or a tombstone has become empty. */
  ghost predicate NoNewEmpty(cells: seq<Cell>, cells': seq<Cell>) {
    |cells'| == |cells| && forall i :: 0 <= i < |cells| && cells[i] != Empty ==> cells'[i] != Empty
  }

  lemma ReachesKept(cells: seq<Cell>, cells': seq<Cell>, h: nat, i: nat)
    requires |cells| > 0 && NoNewEmpty(cells, cells') && Reaches(cells, h, i)
    ensures Reaches(cells', h, i)
  {
    var s: nat :| Probe(h, |cells|, s) == i && PathFull(cells, h, s);
    assert PathFull(cells', h, s);
  }

  /** Bucket i does not hold key. */
  ghost predicate Misses(cells: seq<Cell>, keys: seq<Key>, key: Key, i: nat)
    requires i < |cells| <= |keys|
  {
    cells[i] != Live || keys[i] != key
  }

  /** A search that stops at an empty bucket has proved its key absent. */
  lemma SearchFailed(cells: seq<Cell>, keys: seq<Key>, hash: Hash, key: Key, s: nat)
    requires 0 < |cells| <= |keys| && AllReachable(cells, keys, hash)
    requires cells[Probe(hash(key), |cells|, s)] == Empty
    requires forall t: nat :: t < s ==> Misses(cells, keys, key, Probe(hash(key), |cells|, t))
    ensures Absent(keys, LiveSet(cells), key)
  {
    forall i | i in LiveSet(cells)
      ensures keys[i] != key
    {
      var r: nat :| Probe(hash(keys[i]), |cells|, r) == i && PathFull(cells, hash(keys[i]), r);
    }
  }

  lemma ProperSubset(s: set<nat>, n: nat) returns (i: nat)
    requires |s| < n && forall i :: i in s ==> i < n
    ensures i < n && i !in s
  {
    var all := Numbers(n);
    assert all == (all - s) + s;
    assert |all - s| > 0;
    i :| i in all - s;
  }

  /** With fewer occupied buckets than buckets, every probe sequence meets an empty one. */
  lemma EmptyBucketAhead(cells: seq<Cell>, h: nat, k: nat) returns (e: nat)
    requires |cells| == Pow2(k) && |OccupiedSet(cells)| < |cells|
    ensures e < |cells| && cells[Probe(h, |cells|, e)] == Empty
    ensures forall t: nat :: 0 < t <= e ==> Probe(h, |cells|, t) != Probe(h, |cells|, 0)
  {
    var i := ProperSubset(OccupiedSet(cells), |cells|);
    e := EveryBucketIsProbed(h, k, i);
    forall t: nat | 0 < t <= e
      ensures Probe(h, |cells|, t) != Probe(h, |cells|, 0)
    {
      NoEarlyReturn(h, k, t);
    }
  }

  // ---- One cell changes ----

  lemma CellBecomesLive(cells: seq<Cell>, i: nat)
    requires i < |cells| && cells[i] != Live
    ensures LiveSet(cells[i := Live]) == LiveSet(cells) + {i} && i !in LiveSet(cells)
    ensures |LiveSet(cells[i := Live])| == |LiveSet(cells)| + 1
    ensures OccupiedSet(cells[i := Live]) == OccupiedSet(cells) + {i}
    ensures |OccupiedSet(cells[i := Live])| == |OccupiedSet(cells)| + if cells[i] == Empty then 1 else 0
    ensures NoNewEmpty(cells, cells[i := Live])
  {
    assert LiveSet(cells[i := Live]) == LiveSet(cells) + {i};
    assert OccupiedSet(cells[i := Live]) == OccupiedSet(cells) + {i};
    if cells[i] != Empty { assert OccupiedSet(cells) + {i} == OccupiedSet(cells); }
  }

  lemma CellIsDeleted(cells: seq<Cell>, i: nat)
    requires i < |cells| && cells[i] == Live
    ensures LiveSet(cells[i := Deleted]) == LiveSet(cells) - {i} && i in LiveSet(cells)
    ensures |LiveSet(cells[i := Deleted])| == |LiveSet(cells)| - 1
    ensures OccupiedSet(cells[i := Deleted]) == OccupiedSet(cells)
    ensures NoNewEmpty(cells, cells[i := Deleted])
  {
    assert LiveSet(cells[i := Deleted]) == LiveSet(cells) - {i};
    assert OccupiedSet(cells[i := Deleted]) == OccupiedSet(cells);
  }

  lemma LiveIsOccupied(cells: seq<Cell>)
    ensures LiveSet(cells) <= OccupiedSet(cells) && |LiveSet(cells)| <= |OccupiedSet(cells)|
  {
    var rest := OccupiedSet(cells) - LiveSet(cells);
    assert OccupiedSet(cells) == LiveSet(cells) + rest;
  }

  /** A stored key is reachable, and nothing else loses its way. */
  lemma StoreKeepsReachable(cells: seq<Cell>, keys: seq<Key>, hash: Hash, key: Key, s: nat)
    requires 0 < |cells| <= |keys| && AllReachable(cells, keys, hash)
    requires PathFull(cells, hash(key), s)
    requires cells[Probe(hash(key), |cells|, s)] != Live
    ensures
      var i := Probe(hash(key), |cells|, s);
      AllReachable(cells[i := Live], keys[i := key], hash)
  {
    var i := Probe(hash(key), |cells|, s);
    var cells' := cells[i := Live];
    forall j | j in LiveSet(cells')
      ensures Reaches(cells', hash(keys[i := key][j]), j)
    {
      if j == i {
        assert PathFull(cells', hash(key), s);
      } else {
        ReachesKept(cells, cells', hash(keys[j]), j);
      }
    }
  }

  lemma DeleteKeepsReachable(cells: seq<Cell>, keys: seq<Key>, hash: Hash, i: nat)
    requires 0 < |cells| <= |keys| && AllReachable(cells, keys, hash)
    requires i < |cells| && cells[i] == Live
    ensures AllReachable(cells[i := Deleted], keys, hash)
  {
    var cells' := cells[i := Deleted];
    forall j | j in LiveSet(cells')
      ensures Reaches(cells', hash(keys[j]), j)
    {
      ReachesKept(cells, cells', hash(keys[j]), j);
    }
  }
}
