/** khash.h's table as __KHASH_IMPL generates it for 32-bit keys and int values, for any hash
    function.  Every operation is proved against the finite map the table stands for. */
module KHash {
  import opened Flags
  import opened Probing
  import opened RoundUp
  import opened Buckets
  import opened Rehash

  /** (khint_t)(n * 0.77 + 0.5) */
  function Upper(n: nat): (u: nat)
    ensures 100 * u <= 77 * n + 50 < 100 * u + 100
  {
    (77 * n + 50) / 100
  }

  /** __ac_isempty */
  predicate IsEmpty(c: Cell) { c == Empty || c == Both }

  ghost predicate NoBoth(cells: seq<Cell>) {
    forall i :: 0 <= i < |cells| ==> cells[i] != Both
  }

  /** The buckets form a table: keys are distinct and each is where its probes lead. */
  ghost predicate Table(cells: seq<Cell>, keys: seq<Key>, vals: seq<int>, hash: Hash) {
    && |keys| == |cells| && |vals| == |cells|
    && NoBoth(cells)
    && Distinct(keys, LiveSet(cells))
    && AllReachable(cells, keys, hash)
  }

  // ---- From a table to the start of a move, and from its end to a table ----

  lemma GrownArrays(keys: seq<Key>, vals: seq<int>, keys': seq<Key>, vals': seq<int>, p: set<nat>)
    requires Distinct(keys, p) && |keys| == |vals| && |keys'| == |vals'|
    requires forall i :: i in p ==> i < |keys'| && keys'[i] == keys[i] && vals'[i] == vals[i]
    ensures Distinct(keys', p) && MapAt(keys', vals', p) == MapAt(keys, vals, p)
  {
  }

  lemma AllEmpty(cells: seq<Cell>)
    requires forall i :: 0 <= i < |cells| ==> cells[i] == Empty
    ensures LiveSet(cells) == {} && OccupiedSet(cells) == {}
  {
  }

  lemma InRange(cells: seq<Cell>)
    ensures forall i :: i in LiveSet(cells) ==> i < |cells|
  {
  }

  lemma MoveStarts(cells: seq<Cell>, now: seq<Cell>, keys: seq<Key>, vals: seq<int>,
                   keys': seq<Key>, vals': seq<int>, hash: Hash)
    requires Table(cells, keys, vals, hash)
    requires forall i :: 0 <= i < |now| ==> now[i] == Empty
    requires |keys'| == |vals'| && |cells| <= |keys'| && |LiveSet(cells)| < |now| <= |keys'|
    requires forall i :: 0 <= i < |cells| ==> keys'[i] == keys[i] && vals'[i] == vals[i]
    ensures Moving(cells, now, keys', vals', hash, MapAt(keys, vals, LiveSet(cells)), |LiveSet(cells)|)
  {
    hide MapAt, Distinct, LiveSet, OccupiedSet, Reaches;
    AllEmpty(now);
    InRange(cells);
    assert Held(cells, now) == LiveSet(cells);
    GrownArrays(keys, vals, keys', vals', LiveSet(cells));
  }

  lemma MoveEnds(was: seq<Cell>, now: seq<Cell>, keys: seq<Key>, vals: seq<int>, hash: Hash,
                 all: map<Key, int>, count: nat)
    requires Moving(was, now, keys, vals, hash, all, count) && LiveSet(was) == {}
    ensures Table(now, keys[..|now|], vals[..|now|], hash)
    ensures MapAt(keys[..|now|], vals[..|now|], LiveSet(now)) == all
    ensures |LiveSet(now)| == count && OccupiedSet(now) == LiveSet(now)
  {
    hide MapAt, Distinct, LiveSet, OccupiedSet, Reaches;
    assert Held(was, now) == LiveSet(now);
    NowHasRoom(was, now, keys, vals, hash);
    InRange(now);
    GrownArrays(keys, vals, keys[..|now|], vals[..|now|], LiveSet(now));
  }

  method MoveAll(flags: array<bv32>, newFlags: array<bv32>, keys: array<Key>, vals: array<int>,
                 n: nat, m: nat, hash: Hash,
                 ghost k: nat, ghost all: map<Key, int>, ghost count: nat)
    requires flags != newFlags && Apart(flags, keys, vals) && Apart(newFlags, keys, vals)
    requires n <= 16 * flags.Length && m == Pow2(k) <= 16 * newFlags.Length
    requires Moving(CellsOf(flags[..], n), CellsOf(newFlags[..], m), keys[..], vals[..], hash, all, count)
    modifies flags, newFlags, keys, vals
    ensures Moving(CellsOf(flags[..], n), CellsOf(newFlags[..], m), keys[..], vals[..], hash, all, count)
    ensures LiveSet(CellsOf(flags[..], n)) == {}
  {
    hide CellAt, Moving, Pow2;
    InRange(CellsOf(flags[..], n));
    var j := 0;
    while j != n
      invariant j <= n
      invariant Moving(CellsOf(flags[..], n), CellsOf(newFlags[..], m), keys[..], vals[..], hash, all, count)
      invariant forall i :: i in LiveSet(CellsOf(flags[..], n)) ==> j <= i < n
    {
      if CellAt(flags[..], j) == Live {
        KickOut(flags, newFlags, keys, vals, n, m, hash, j, k, all, count);
      } else {
        NotLive(CellsOf(flags[..], n), j);
      }
      j := j + 1;
    }
  }

  /** Probe s met the last tombstone among the first e probes; s == e if there was none. */
  ghost predicate LastTombstone(cells: seq<Cell>, h: nat, s: nat, e: nat)
    requires |cells| > 0
  {
    && s <= e && (s < e ==> cells[Probe(h, |cells|, s)] == Deleted)
    && forall t: nat :: t < e && (s == e || s < t) ==> cells[Probe(h, |cells|, t)] != Deleted
  }

  /** Where kh_put stores a new key: probe e is the first to meet an empty bucket. */
  ghost predicate SpotFor(cells: seq<Cell>, h: nat, s: nat, e: nat)
    requires |cells| > 0
  {
    cells[Probe(h, |cells|, e)] == Empty && LastTombstone(cells, h, s, e)
  }

  lemma NoneToPass(cells: seq<Cell>, h: nat)
    requires |cells| > 0
    ensures LastTombstone(cells, h, 0, 0)
  {
  }

  lemma OneMorePassed(cells: seq<Cell>, h: nat, s: nat, e: nat)
    requires |cells| > 0 && LastTombstone(cells, h, s, e)
    ensures
      if cells[Probe(h, |cells|, e)] == Deleted then LastTombstone(cells, h, e, e + 1)
      else LastTombstone(cells, h, if s == e then e + 1 else s, e + 1)
  {
    hide Probe;
  }

  // ---- The table ----

  /** What a full table is resized to: its own size while less than half of it is live, else twice that. */
  function Grown(nBuckets: nat, size: nat): nat {
    if nBuckets > 2 * size then nBuckets else if nBuckets == 0 then 4 else 2 * nBuckets
  }

  /** Where no more buckets are occupied than live, none is a tombstone. */
  lemma NoTombstone(cells: seq<Cell>, x: nat)
    requires x < |cells|
    ensures |LiveSet(cells)| == |OccupiedSet(cells)| ==> cells[x] == Live || cells[x] == Empty
  {
    var live, occupied := LiveSet(cells), OccupiedSet(cells);
    assert occupied == live + (occupied - live);
    assert cells[x] != Live && cells[x] != Empty ==> x in occupied - live;
  }

  class Hashtable {
    const hash: Hash
    var nBuckets: nat
    var size: nat
    var nOccupied: nat
    var upperBound: nat
    var flags: array<bv32>
    var keys: array<Key>
    var vals: array<int>

    /** The load invariant and the array shapes. */
    ghost predicate Shape()
      reads this
    {
      && Apart(flags, keys, vals)
      && keys.Length == nBuckets && vals.Length == nBuckets
      && nBuckets <= 16 * flags.Length && (nBuckets != 0 ==> flags.Length == FSize(nBuckets))
      && upperBound == (if nBuckets == 0 then 0 else Upper(nBuckets))
      && (nBuckets != 0 ==> IsPow2(nBuckets) && 4 <= nBuckets <= 0x8000_0000)
      && size <= nOccupied <= upperBound
    }

    ghost function Cells(): (cells: seq<Cell>)
      requires nBuckets <= 16 * flags.Length
      reads this, flags
    {
      CellsOf(flags[..], nBuckets)
    }

    ghost predicate Valid()
      reads this, flags, keys, vals
    {
      && Shape()
      && Table(Cells(), keys[..], vals[..], hash)
      && size == |LiveSet(Cells())|
      && nOccupied == |OccupiedSet(Cells())|
    }

    /** The map the table stands for. */
    ghost function Map(): map<Key, int>
      requires Valid()
      reads this, flags, keys, vals
    {
      MapAt(keys[..], vals[..], LiveSet(Cells()))
    }

    /** kh_init: everything zero and no arrays yet. */
    constructor (hash: Hash)
      ensures Valid() && Map() == map[] && this.hash == hash
      ensures fresh(flags) && fresh(keys) && fresh(vals)
    {
      this.hash := hash;
      nBuckets, size, nOccupied, upperBound := 0, 0, 0, 0;
      flags, keys, vals := new bv32[0], new Key[0], new int[0];
    }

    /** kh_clear */
    method Clear()
      requires Valid()
      modifies this`size, this`nOccupied, flags
      ensures Valid() && Map() == map[] && nBuckets == old(nBuckets) && size == nOccupied == 0
    {
      hide CellAt, IsPow2;
      if nBuckets > 0 {
        FillEmpty(flags);
        size, nOccupied := 0, 0;
        AllEmpty(Cells());
      } else {
        AllEmpty(Cells());
      }
    }

    /** kh_get: the bucket of key, or nBuckets. */
    method Get(key: Key) returns (x: nat)
      requires Valid()
      ensures x <= nBuckets
      ensures x == nBuckets <==> key !in Map()
      ensures x < nBuckets ==> Cells()[x] == Live && keys[x] == key && Map()[key] == vals[x]
    {
      hide CellAt, IsPow2, Distinct, MapAt, LiveSet, OccupiedSet, AllReachable, Probe, PathFull, NoBoth, Upper, FSize;
      ghost var cells, ks := Cells(), keys[..];
      if nBuckets == 0 {
        EmptyTableMisses(cells, ks, key);
        AbsentIsNotInMap(ks, vals[..], LiveSet(cells), key);
        return 0;
      }
      ghost var k := RoomToProbe(cells);
      var h := hash(key);
      ghost var e := EmptyBucketAhead(cells, h, k);
      FirstProbe(cells, h);
      var step, i := 0, h % nBuckets;
      var last := i;
      while !IsEmpty(CellAt(flags[..], i)) && (CellAt(flags[..], i) == Deleted || keys[i] != key)
        invariant i == Probe(h, nBuckets, step) && step <= e && PathFull(cells, h, step)
        invariant forall t: nat :: t < step ==> Misses(cells, ks, key, Probe(h, nBuckets, t))
        decreases e - step
      {
        OneMoreProbe(cells, h, step);
        step := step + 1;
        i := (i + step) % nBuckets;
        if i == last { assert false; }
      }
      NotBoth(cells, i);
      assert cells[i] == CellAt(flags[..], i);
      if CellAt(flags[..], i) != Live {
        SearchFailed(cells, ks, hash, key, step);
        AbsentIsNotInMap(ks, vals[..], LiveSet(cells), key);
        x := nBuckets;
      } else {
        LiveIsIn(cells, i);
        MapAtPosition(ks, vals[..], LiveSet(cells), i);
        x := i;
      }
    }

    /** kh_del: x comes from Get, so it may be nBuckets. */
    method Del(x: nat)
      requires Valid() && x <= nBuckets
      modifies this`size, flags
      ensures Valid() && nBuckets == old(nBuckets) && keys[..] == old(keys[..])
      ensures Map() == if x < nBuckets && old(Cells())[x] == Live then old(Map()) - {keys[x]} else old(Map())
    {
      hide CellAt, IsPow2, MapAt, Distinct, LiveSet, OccupiedSet, Reaches, Upper;
      ghost var cells, ks, vs := Cells(), keys[..], vals[..];
      if x != nBuckets && CellAt(flags[..], x) == Live {
        DeleteEntry(cells, ks, vs, hash, x);
        MarkDeleted(flags, nBuckets, x);
        size := size - 1;
        assert Cells() == cells[x := Deleted] && keys[..] == ks && vals[..] == vs;
      }
    }

    /** kh_resize: rehash in place into the rounded-up number of buckets, unless that is too
        few for the entries. */
    method Resize(request: nat)
      requires Valid() && request < 0x1_0000_0000
      modifies this, flags, keys, vals
      ensures Valid() && Map() == old(Map()) && size == old(size)
      ensures fresh(flags) || flags == old(flags)
      ensures fresh(keys) || keys == old(keys)
      ensures fresh(vals) || vals == old(vals)
      ensures
        var m := Max(4, RoundUp32(request));
        if old(size) >= Upper(m) then nBuckets == old(nBuckets) && nOccupied == old(nOccupied)
        else nBuckets == m && nOccupied == old(size)
    {
      hide CellAt, IsPow2, MapAt, Distinct, LiveSet, OccupiedSet, Reaches, RoundUp32, Pow2, Table, Upper;
      var m := RoundUp32(request);
      if m < 4 { m := 4; }
      ghost var k := RoundedSize(request);
      if size < Upper(m) {
        RehashInto(m, k);
      }
    }

    /** The search of kh_put, which ends at probe e: the bucket that holds key, or else an empty one.
        Then key is to be stored at probe s, the last tombstone passed if there was one. */
    method FindSlot(key: Key) returns (x: nat, ghost s: nat, ghost e: nat)
      requires Valid() && nBuckets > 0
      ensures x < nBuckets && x == Probe(hash(key), nBuckets, s)
      ensures s <= e && PathFull(Cells(), hash(key), s) && PathFull(Cells(), hash(key), e)
      ensures Cells()[x] == Live ==> keys[x] == key && s == e
      ensures Cells()[x] != Live ==>
        Absent(keys[..], LiveSet(Cells()), key) && SpotFor(Cells(), hash(key), s, e)
    {
      hide CellAt, IsPow2, Distinct, MapAt, LiveSet, OccupiedSet, AllReachable, Probe, NoBoth, PathFull, Absent;
      hide LastTombstone;
      ghost var cells, ks := Cells(), keys[..];
      ghost var k := RoomToProbe(cells);
      var h := hash(key);
      ghost var ahead := EmptyBucketAhead(cells, h, k);
      FirstProbe(cells, h);
      var step, i, site := 0, h % nBuckets, nBuckets;
      x, s := nBuckets, 0;
      NoneToPass(cells, h);
      if IsEmpty(CellAt(flags[..], i)) {
        x := i;
      } else {
        var last := i;
        while !IsEmpty(CellAt(flags[..], i)) && (CellAt(flags[..], i) == Deleted || keys[i] != key)
          invariant i == Probe(h, nBuckets, step) && step <= ahead && PathFull(cells, h, step)
          invariant forall t: nat :: t < step ==> Misses(cells, ks, key, Probe(h, nBuckets, t))
          invariant site == nBuckets || (site == Probe(h, nBuckets, s) && s < step && cells[site] == Deleted)
          invariant LastTombstone(cells, h, if site == nBuckets then step else s, step)
          decreases ahead - step
        {
          assert cells[i] == CellAt(flags[..], i);
          OneMorePassed(cells, h, if site == nBuckets then step else s, step);
          if CellAt(flags[..], i) == Deleted { site, s := i, step; }
          OneMoreProbe(cells, h, step);
          step := step + 1;
          i := (i + step) % nBuckets;
          if i == last { assert false; }
        }
        if x == nBuckets {
          if IsEmpty(CellAt(flags[..], i)) && site != nBuckets {
            x := site;
          } else {
            x, s := i, step;
          }
        }
      }
      e := step;
      PathPrefix(cells, h, s, step);
      NotBoth(cells, i);
      assert cells[i] == CellAt(flags[..], i);
      if cells[i] == Empty { SearchFailed(cells, ks, hash, key, step); }
    }

    /** The resize at the start of kh_put, after which there is an empty bucket to spare. */
    method MakeRoom()
      requires Valid()
      requires nBuckets < 0x8000_0000 || nOccupied < upperBound || nBuckets > 2 * size
      modifies this, flags, keys, vals
      ensures Valid() && Map() == old(Map()) && size == old(size)
      ensures fresh(flags) || flags == old(flags)
      ensures fresh(keys) || keys == old(keys)
      ensures fresh(vals) || vals == old(vals)
      ensures nOccupied < upperBound
      ensures old(nOccupied) < old(upperBound) ==> nOccupied == old(nOccupied) && nBuckets == old(nBuckets)
      ensures old(nOccupied) >= old(upperBound) ==>
        nOccupied == size && nBuckets == Grown(old(nBuckets), old(size))
    {
      hide CellAt, IsPow2, MapAt, Distinct, LiveSet, OccupiedSet, Reaches, RoundUp32, Pow2, Table, CellsOf;
      if nOccupied >= upperBound {
        if nBuckets > 2 * size {
          SameSizeMakesRoom(nBuckets, size);
          Resize(nBuckets - 1);
        } else {
          if nBuckets == 0 { FirstExpansion(); } else { ExpansionMakesRoom(nBuckets, size); }
          Resize(nBuckets + 1);
        }
      }
    }

    /** kh_put: x is the bucket of key, whose value the caller then writes.  ret is 0 when key
        was present, 1 for a new key in an empty bucket, which is one more occupied, 2 for a new key
        over a tombstone; a resize leaves no tombstones. */
    method Put(key: Key) returns (x: nat, ret: int)
      requires Valid()
      requires nBuckets < 0x8000_0000 || nOccupied < upperBound || nBuckets > 2 * size
      modifies this, flags, keys, vals
      ensures Valid() && x < nBuckets && Cells()[x] == Live && keys[x] == key
      ensures ret == 0 || ret == 1 || ret == 2
      ensures ret == 0 <==> key in old(Map())
      ensures Map() == if ret == 0 then old(Map()) else old(Map())[key := vals[x]]
      ensures size == old(size) + if ret == 0 then 0 else 1
      ensures old(nOccupied) < old(upperBound) ==>
        nOccupied == old(nOccupied) + (if ret == 1 then 1 else 0) && nBuckets == old(nBuckets)
      ensures old(nOccupied) >= old(upperBound) ==>
        ret != 2 && nOccupied == size && nBuckets == Grown(old(nBuckets), old(size))
      ensures fresh(flags) || flags == old(flags)
      ensures fresh(keys) || keys == old(keys)
      ensures fresh(vals) || vals == old(vals)
    {
      hide CellAt, IsPow2, MapAt, Distinct, LiveSet, OccupiedSet, Reaches, Upper, Table, PathFull, Probe;
      hide Absent, CellsOf;
      MakeRoom();
      ghost var s, e;
      x, s, e := FindSlot(key);
      NoTombstone(Cells(), x);
      ret := StoreIfNew(key, x, s);
    }

    method StoreIfNew(key: Key, x: nat, ghost s: nat) returns (ret: int)
      requires Valid() && nOccupied < upperBound && x < nBuckets
      requires x == Probe(hash(key), nBuckets, s) && PathFull(Cells(), hash(key), s)
      requires Cells()[x] == Live ==> keys[x] == key
      requires Cells()[x] != Live ==> Absent(keys[..], LiveSet(Cells()), key)
      modifies this`size, this`nOccupied, flags, keys
      ensures Valid() && Cells()[x] == Live && keys[x] == key
      ensures ret == match old(Cells()[x]) { case Live => 0 case Empty => 1 case _ => 2 }
      ensures ret == 0 <==> key in old(Map())
      ensures Map() == if ret == 0 then old(Map()) else old(Map())[key := vals[x]]
      ensures size == old(size) + if ret == 0 then 0 else 1
      ensures nOccupied == old(nOccupied) + if ret == 1 then 1 else 0
    {
      hide CellAt, IsPow2, MapAt, Distinct, LiveSet, OccupiedSet, Reaches, Upper, PathFull, Probe, Absent, AllReachable;
      ghost var cells, ks, vs := Cells(), keys[..], vals[..];
      assert cells[x] == CellAt(flags[..], x);
      AbsentIsNotInMap(ks, vs, LiveSet(cells), key);
      NotBoth(cells, x);
      if CellAt(flags[..], x) == Live {
        LiveIsIn(cells, x);
        MapAtPosition(ks, vs, LiveSet(cells), x);
      } else {
        StoreEntry(cells, ks, vs, hash, key, s, x);
        LiveIsOccupied(cells[x := Live]);
      }
      if IsEmpty(CellAt(flags[..], x)) {
        keys[x] := key;
        SetIsBothFalse(flags, x);
        size, nOccupied, ret := size + 1, nOccupied + 1, 1;
        assert Cells() == cells[x := Live] && keys[..] == ks[x := key] && vals[..] == vs;
      } else if CellAt(flags[..], x) == Deleted {
        keys[x] := key;
        SetIsBothFalse(flags, x);
        size, ret := size + 1, 2;
        assert Cells() == cells[x := Live] && keys[..] == ks[x := key] && vals[..] == vs;
      } else {
        ret := 0;
      }
    }

    /** The rehash of kh_resize into m buckets, m being a power of two with room for the entries. */
    method RehashInto(m: nat, ghost k: nat)
      requires Valid() && 4 <= m == Pow2(k) <= 0x8000_0000 && size < Upper(m)
      modifies this, flags, keys, vals
      ensures Valid() && Map() == old(Map()) && size == old(size)
      ensures fresh(flags) || flags == old(flags)
      ensures fresh(keys) || keys == old(keys)
      ensures fresh(vals) || vals == old(vals)
      ensures nBuckets == m && nOccupied == size
    {
      hide CellAt, IsPow2, MapAt, Distinct, LiveSet, OccupiedSet, Reaches, Pow2, Table, FSize, CellsOf, Upper;
      UpperIsBelow(m);
      FSizeCovers(k);
      PowerIsPow2(k);
      flags, keys, vals := RehashStorage(flags, keys, vals, m, hash, k);
      nBuckets, nOccupied, upperBound := m, size, Upper(m);
    }
  }

  // ---- kh_put ----

  /** Room for one more key, whatever put's two resize choices find. */
  lemma SameSizeMakesRoom(n: nat, size: nat)
    requires IsPow2(n) && 4 <= n <= 0x8000_0000 && n > 2 * size
    ensures RoundUp32(n - 1) == n && size < Upper(n)
  {
    hide RoundUp32;
    RoundUpIsLeastPow2(n - 1);
    PowersApart(n, RoundUp32(n - 1));
  }

  lemma ExpansionMakesRoom(n: nat, size: nat)
    requires IsPow2(n) && 4 <= n < 0x8000_0000 && size <= Upper(n)
    ensures RoundUp32(n + 1) == 2 * n && size < Upper(2 * n)
  {
    hide RoundUp32;
    RoundUpIsLeastPow2(n + 1);
    PowersApart(n, RoundUp32(n + 1));
    DoubleIsPow2(n);
    PowersApart(RoundUp32(n + 1), 2 * n);
  }

  lemma FirstExpansion()
    ensures Max(4, RoundUp32(1)) == 4
  {
    hide RoundUp32;
    RoundUpIsLeastPow2(1);
  }

  lemma DoubleIsPow2(n: nat)
    requires IsPow2(n)
    ensures IsPow2(2 * n)
  {
    var k: nat :| n == Pow2(k);
    assert Pow2(k + 1) == 2 * n;
  }

  /** Different powers of two are a factor of two apart. */
  lemma PowersApart(a: nat, b: nat)
    requires IsPow2(a) && IsPow2(b)
    ensures a == b || 2 * a <= b || 2 * b <= a
  {
    var i: nat :| a == Pow2(i);
    var j: nat :| b == Pow2(j);
    if i < j { Pow2Grows(i + 1, j); } else if j < i { Pow2Grows(j + 1, i); }
  }

  /** A new key goes to a bucket that is not live on its probe path. */
  lemma StoreEntry(cells: seq<Cell>, keys: seq<Key>, vals: seq<int>, hash: Hash, key: Key, s: nat, x: nat)
    requires Table(cells, keys, vals, hash) && |cells| > 0 && x == Probe(hash(key), |cells|, s)
    requires cells[x] != Live && PathFull(cells, hash(key), s) && Absent(keys, LiveSet(cells), key)
    ensures Table(cells[x := Live], keys[x := key], vals, hash)
    ensures MapAt(keys[x := key], vals, LiveSet(cells[x := Live])) == MapAt(keys, vals, LiveSet(cells))[key := vals[x]]
    ensures |LiveSet(cells[x := Live])| == |LiveSet(cells)| + 1
    ensures |OccupiedSet(cells[x := Live])| == |OccupiedSet(cells)| + if cells[x] == Empty then 1 else 0
  {
    hide MapAt, Distinct, LiveSet, OccupiedSet, Reaches, Probe, PathFull, Absent;
    CellBecomesLive(cells, x);
    StoreAt(keys, vals, LiveSet(cells), x, key, vals[x]);
    assert vals[x := vals[x]] == vals;
    StoreKeepsReachable(cells, keys, hash, key, s);
  }

  lemma UpperIsBelow(m: nat)
    requires m >= 4
    ensures 0 < Upper(m) < m
  {
  }

  /** The rehash over the arrays: a table of n buckets becomes a table of m buckets with the
      same map, in the same key and value arrays. */
  method RehashArrays(flags: array<bv32>, keys: array<Key>, vals: array<int>, n: nat, m: nat, hash: Hash,
                      ghost k: nat) returns (newFlags: array<bv32>)
    requires Apart(flags, keys, vals) && n <= 16 * flags.Length && m == Pow2(k) <= 16 * FSize(m)
    requires n <= keys.Length == vals.Length && m <= keys.Length
    requires Table(CellsOf(flags[..], n), keys[..n], vals[..n], hash)
    requires Distinct(keys[..n], LiveSet(CellsOf(flags[..], n)))
    requires |LiveSet(CellsOf(flags[..], n))| < m
    modifies flags, keys, vals
    ensures fresh(newFlags) && newFlags.Length == FSize(m)
    ensures Table(CellsOf(newFlags[..], m), keys[..m], vals[..m], hash)
    ensures Distinct(keys[..m], LiveSet(CellsOf(newFlags[..], m)))
    ensures MapAt(keys[..m], vals[..m], LiveSet(CellsOf(newFlags[..], m)))
      == old(MapAt(keys[..n], vals[..n], LiveSet(CellsOf(flags[..], n))))
    ensures |LiveSet(CellsOf(newFlags[..], m))| == old(|LiveSet(CellsOf(flags[..], n))|)
    ensures |OccupiedSet(CellsOf(newFlags[..], m))| == old(|LiveSet(CellsOf(flags[..], n))|)
  {
    hide CellAt, MapAt, Distinct, LiveSet, OccupiedSet, Reaches, Pow2, Table, Moving, FSize;
    newFlags := new bv32[FSize(m)];
    FillEmpty(newFlags);
    ghost var cells := CellsOf(flags[..], n);
    assert |keys[..n]| == |vals[..n]| == |cells|;
    TableIsDistinct(cells, keys[..n], vals[..n], hash);
    ghost var all := MapAt(keys[..n], vals[..n], LiveSet(cells));
    ghost var count := |LiveSet(cells)|;
    MoveStarts(cells, CellsOf(newFlags[..], m), keys[..n], vals[..n], keys[..], vals[..], hash);
    MoveAll(flags, newFlags, keys, vals, n, m, hash, k, all, count);
    MoveEnds(CellsOf(flags[..], n), CellsOf(newFlags[..], m), keys[..], vals[..], hash, all, count);
    assert keys[..][..m] == keys[..m] && vals[..][..m] == vals[..m];
    TableIsDistinct(CellsOf(newFlags[..], m), keys[..m], vals[..m], hash);
  }

  /** Growing the key and value arrays first when the table grows, shrinking them last when it
      shrinks. */
  method RehashStorage(flags: array<bv32>, keys: array<Key>, vals: array<int>, m: nat, hash: Hash, ghost k: nat)
    returns (newFlags: array<bv32>, newKeys: array<Key>, newVals: array<int>)
    requires Apart(flags, keys, vals) && keys.Length == vals.Length <= 16 * flags.Length
    requires m == Pow2(k) <= 16 * FSize(m)
    requires Table(CellsOf(flags[..], keys.Length), keys[..], vals[..], hash)
    requires |LiveSet(CellsOf(flags[..], keys.Length))| < m
    modifies flags, keys, vals
    ensures fresh(newFlags) && (fresh(newKeys) || newKeys == keys) && (fresh(newVals) || newVals == vals)
    ensures Apart(newFlags, newKeys, newVals)
    ensures newFlags.Length == FSize(m) && newKeys.Length == newVals.Length == m
    ensures Distinct(old(keys[..]), LiveSet(old(CellsOf(flags[..], keys.Length))))
    ensures Table(CellsOf(newFlags[..], m), newKeys[..], newVals[..], hash)
    ensures Distinct(newKeys[..], LiveSet(CellsOf(newFlags[..], m)))
    ensures MapAt(newKeys[..], newVals[..], LiveSet(CellsOf(newFlags[..], m)))
      == old(MapAt(keys[..], vals[..], LiveSet(CellsOf(flags[..], keys.Length))))
    ensures |LiveSet(CellsOf(newFlags[..], m))| == old(|LiveSet(CellsOf(flags[..], keys.Length))|)
    ensures |OccupiedSet(CellsOf(newFlags[..], m))| == old(|LiveSet(CellsOf(flags[..], keys.Length))|)
  {
    hide CellAt, MapAt, Distinct, LiveSet, OccupiedSet, Pow2, Table, FSize, CellsOf;
    var n := keys.Length;
    TableIsDistinct(CellsOf(flags[..], n), keys[..], vals[..], hash);
    newKeys, newVals := keys, vals;
    if n < m {
      newKeys := Realloc(keys, m, 0);
      newVals := Realloc(vals, m, 0);
    }
    assert newKeys[..n] == keys[..] && newVals[..n] == vals[..];
    newFlags := RehashArrays(flags, newKeys, newVals, n, m, hash, k);
    ghost var ks', vs' := newKeys[..m], newVals[..m];
    if n > m {
      newKeys := Realloc(newKeys, m, 0);
      newVals := Realloc(newVals, m, 0);
    }
    assert newKeys[..] == ks' && newVals[..] == vs';
  }

  lemma TableIsDistinct(cells: seq<Cell>, keys: seq<Key>, vals: seq<int>, hash: Hash)
    requires Table(cells, keys, vals, hash)
    ensures Distinct(keys, LiveSet(cells)) && |keys| == |vals|
  {
  }

  /** krealloc: the common prefix is kept. */
  method Realloc<T>(a: array<T>, m: nat, filler: T) returns (b: array<T>)
    ensures fresh(b) && b.Length == m
    ensures forall i :: 0 <= i < m && i < a.Length ==> b[i] == a[i]
  {
    b := new T[m](i requires 0 <= i reads a => if i < a.Length then a[i] else filler);
  }

  lemma PowerIsPow2(k: nat)
    ensures IsPow2(Pow2(k))
  {
  }

  function Max(a: nat, b: nat): nat { if a >= b then a else b }

  /** The bucket count a request leads to. */
  lemma RoundedSize(request: nat) returns (k: nat)
    requires request < 0x1_0000_0000
    ensures Max(4, RoundUp32(request)) == Pow2(k) <= 0x8000_0000
  {
    hide RoundUp32;
    RoundUpIsLeastPow2(request);
    if RoundUp32(request) < 4 {
      k := 2;
      assert Pow2(1) == 2;
    } else {
      k :| RoundUp32(request) == Pow2(k);
    }
  }

  lemma DeleteEntry(cells: seq<Cell>, keys: seq<Key>, vals: seq<int>, hash: Hash, x: nat)
    requires Table(cells, keys, vals, hash) && x < |cells| && cells[x] == Live
    ensures Table(cells[x := Deleted], keys, vals, hash)
    ensures MapAt(keys, vals, LiveSet(cells[x := Deleted])) == MapAt(keys, vals, LiveSet(cells)) - {keys[x]}
    ensures |LiveSet(cells[x := Deleted])| == |LiveSet(cells)| - 1
    ensures OccupiedSet(cells[x := Deleted]) == OccupiedSet(cells)
    ensures |LiveSet(cells)| > 0
  {
    hide MapAt, Distinct, LiveSet, OccupiedSet, Reaches;
    CellIsDeleted(cells, x);
    TakeOut(keys, vals, LiveSet(cells), x);
    AbsentIsNotInMap(keys, vals, LiveSet(cells) - {x}, keys[x]);
    DeleteKeepsReachable(cells, keys, hash, x);
  }

  lemma EmptyTableMisses(cells: seq<Cell>, keys: seq<Key>, key: Key)
    requires |cells| == 0
    ensures Absent(keys, LiveSet(cells), key)
  {
  }

  lemma RoomToProbe(cells: seq<Cell>) returns (k: nat)
    requires IsPow2(|cells|)
    ensures |cells| == Pow2(k)
  {
    k :| |cells| == Pow2(k);
  }

  lemma PathPrefix(cells: seq<Cell>, h: nat, s: nat, t: nat)
    requires |cells| > 0 && s <= t && PathFull(cells, h, t)
    ensures PathFull(cells, h, s)
  {
  }

  lemma NotBoth(cells: seq<Cell>, i: nat)
    requires NoBoth(cells) && i < |cells|
    ensures cells[i] != Both
  {
  }

  lemma LiveIsIn(cells: seq<Cell>, i: nat)
    requires i < |cells| && cells[i] == Live
    ensures i in LiveSet(cells)
  {
  }
}
