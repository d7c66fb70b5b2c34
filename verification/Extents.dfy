/** versioning_td_driver.c, reads and ranges: extents of physical blocks, the read path that
    builds and reassembles them, and the in-place merge of the write path. */
module Extents {
  datatype Extent = Extent(pba: nat, num: nat)

  function Pbas(e: Extent): (pbas: seq<nat>)
    ensures |pbas| == e.num
  {
    seq(e.num, i requires 0 <= i < e.num => e.pba + i)
  }

  /** The physical blocks the extents stand for, in order. */
  function Expand(es: seq<Extent>): seq<nat> {
    if es == [] then [] else Expand(es[..|es| - 1]) + Pbas(es[|es| - 1])
  }

  lemma ExpandAppend(es: seq<Extent>, e: Extent)
    ensures Expand(es + [e]) == Expand(es) + Pbas(e)
  {
    assert (es + [e])[..|es|] == es;
  }

  // ---- device_read: building the extents ----

  /** The physical blocks of the mapped blocks among n logical ones, in order. */
  function Mapped(l2p: map<nat, nat>, lba: nat, n: nat): (pbas: seq<nat>)
    ensures |pbas| <= n
  {
    if n == 0 then []
    else Mapped(l2p, lba, n - 1) + if lba + n - 1 in l2p then [l2p[lba + n - 1]] else []
  }

  /** How many of the n logical blocks start an extent: mapped, and not to the block behind the one
      that the block before them is mapped to. */
  function Starts(l2p: map<nat, nat>, lba: nat, n: nat): (count: nat)
    ensures count <= n
  {
    if n == 0 then 0
    else
      var i := lba + n - 1;
      Starts(l2p, lba, n - 1)
      + if i in l2p && !(n > 1 && i - 1 in l2p && l2p[i] == l2p[i - 1] + 1) then 1 else 0
  }

  /** The extent under construction, if any. */
  function Open(start: nat, blocks: nat): seq<Extent> {
    if blocks > 0 then [Extent(start, blocks)] else []
  }

  lemma OneMorePba(es: seq<Extent>, start: nat, blocks: nat)
    requires blocks > 0
    ensures Expand(es + Open(start, blocks + 1)) == Expand(es + Open(start, blocks)) + [start + blocks]
    ensures Expand(es + Open(start, 1)) == Expand(es) + [start]
  {
    ExpandAppend(es, Extent(start, blocks));
    ExpandAppend(es, Extent(start, blocks + 1));
    ExpandAppend(es, Extent(start, 1));
    assert Pbas(Extent(start, blocks + 1)) == Pbas(Extent(start, blocks)) + [start + blocks];
    assert Pbas(Extent(start, 1)) == [start];
  }

  lemma NothingOpen(es: seq<Extent>, start: nat)
    ensures es + Open(start, 0) == es
  {
  }

  /** The coalescing loop: together the extents are exactly the mapped blocks, and there is one for
      each block that does not continue the block before it. */
  method BuildExtents(l2p: map<nat, nat>, lba: nat, n: nat, ranges: array<Extent>, unmapped: array<bool>)
    returns (count: nat)
    requires n <= ranges.Length && n <= unmapped.Length && ranges as object != unmapped
    modifies ranges, unmapped
    ensures count == Starts(l2p, lba, n) <= n && Expand(ranges[..count]) == Mapped(l2p, lba, n)
    ensures forall k :: 0 <= k < count ==> 0 < ranges[k].num <= n
    ensures forall i :: 0 <= i < n ==> (unmapped[i] <==> lba + i !in l2p)
  {
    hide Expand, Open, Starts, Continues;
    NoStarts(l2p, lba);
    var start: nat, blocks: nat := 0, 0;
    count := 0;
    NothingOpen([], start);
    NothingExpands();
    assert ranges[..0] == [];
    var i := 0;
    while i < n
      invariant i <= n && blocks <= i && count + (if blocks > 0 then 1 else 0) == Starts(l2p, lba, i) <= i
      invariant Continues(l2p, lba + i, i, start, blocks)
      invariant Expand(ranges[..count] + Open(start, blocks)) == Mapped(l2p, lba, i)
      invariant forall k :: 0 <= k < count ==> 0 < ranges[k].num <= n
      invariant forall k :: 0 <= k < i ==> (unmapped[k] <==> lba + k !in l2p)
    {
      ghost var es := ranges[..count];
      NothingOpen(es, start);
      NextStart(l2p, lba, i, start, blocks);
      if lba + i in l2p {
        var pba := l2p[lba + i];
        unmapped[i] := false;
        if blocks == 0 {
          OneMorePba(es, pba, 1);
          start, blocks := pba, 1;
        } else if pba == start + blocks {
          OneMorePba(es, start, blocks);
          blocks := blocks + 1;
        } else {
          ranges[count] := Extent(start, blocks);
          count := count + 1;
          Closed(es, start, blocks);
          assert ranges[..count] == es + [Extent(start, blocks)];
          OneMorePba(ranges[..count], pba, 1);
          start, blocks := pba, 1;
        }
      } else {
        unmapped[i] := true;
        assert Mapped(l2p, lba, i + 1) == Mapped(l2p, lba, i) + [];
        if blocks > 0 {
          ranges[count] := Extent(start, blocks);
          count := count + 1;
          Closed(es, start, blocks);
          assert ranges[..count] == es + [Extent(start, blocks)];
          NothingOpen(ranges[..count], start);
          blocks := 0;
        }
      }
      i := i + 1;
    }
    ghost var es := ranges[..count];
    NothingOpen(es, start);
    if blocks > 0 {
      ranges[count] := Extent(start, blocks);
      count := count + 1;
      Closed(es, start, blocks);
      assert ranges[..count] == es + [Extent(start, blocks)];
    }
  }

  /** The extent under construction ends with the block before; without one, that is not mapped. */
  predicate Continues(l2p: map<nat, nat>, next: nat, i: nat, start: nat, blocks: nat)
    requires i <= next
  {
    if blocks > 0 then i > 0 && next - 1 in l2p && l2p[next - 1] == start + blocks - 1
    else i == 0 || next - 1 !in l2p
  }

  lemma NoStarts(l2p: map<nat, nat>, lba: nat)
    ensures Starts(l2p, lba, 0) == 0 && forall start :: Continues(l2p, lba, 0, start, 0)
  {
  }

  lemma NextStart(l2p: map<nat, nat>, lba: nat, i: nat, start: nat, blocks: nat)
    requires Continues(l2p, lba + i, i, start, blocks)
    ensures Starts(l2p, lba, i + 1) == Starts(l2p, lba, i)
      + if lba + i in l2p && !(blocks > 0 && l2p[lba + i] == start + blocks) then 1 else 0
    ensures lba + i !in l2p ==> Continues(l2p, lba + i + 1, i + 1, start, 0)
    ensures lba + i in l2p ==> Continues(l2p, lba + i + 1, i + 1, l2p[lba + i], 1)
    ensures lba + i in l2p && blocks > 0 && l2p[lba + i] == start + blocks ==>
      Continues(l2p, lba + i + 1, i + 1, start, blocks + 1)
  {
  }

  lemma NothingExpands()
    ensures Expand([]) == []
  {
  }

  lemma Closed(es: seq<Extent>, start: nat, blocks: nat)
    requires blocks > 0
    ensures es + Open(start, blocks) == es + [Extent(start, blocks)]
  {
  }

  // ---- device_read: reassembly ----

  /** What a read of one logical block returns: the mapped block, or zeros. */
  function ReadBlock<T>(l2p: map<nat, nat>, disk: nat -> T, zero: T, lba: nat): T {
    if lba in l2p then disk(l2p[lba]) else zero
  }

  /** The gatekeeper's answer to a READ: the blocks of every range in order. */
  function Reply<T>(disk: nat -> T, es: seq<Extent>): (r: seq<T>)
    ensures |r| == |Expand(es)|
  {
    seq(|Expand(es)|, k requires 0 <= k < |Expand(es)| => disk(Expand(es)[k]))
  }

  lemma {:induction false} MappedPosition(l2p: map<nat, nat>, lba: nat, i: nat, n: nat)
    requires i < n && lba + i in l2p
    ensures |Mapped(l2p, lba, i)| < |Mapped(l2p, lba, n)|
    ensures Mapped(l2p, lba, n)[|Mapped(l2p, lba, i)|] == l2p[lba + i]
    decreases n
  {
    if i < n - 1 { MappedPosition(l2p, lba, i, n - 1); }
  }

  lemma NothingMapped(l2p: map<nat, nat>, lba: nat, n: nat, i: nat)
    requires Mapped(l2p, lba, n) == [] && i < n
    ensures lba + i !in l2p
  {
    if lba + i in l2p { MappedPosition(l2p, lba, i, n); }
  }

  /** device_read of n blocks into the buffer from block `at` on. */
  method DeviceRead<T>(l2p: map<nat, nat>, disk: nat -> T, zero: T, lba: nat, n: nat, buffer: array<T>, at: nat)
    requires n <= 64 && at + n <= buffer.Length
    modifies buffer
    ensures forall i :: at <= i < at + n ==> buffer[i] == ReadBlock(l2p, disk, zero, lba + (i - at))
    ensures forall i :: 0 <= i < at || at + n <= i < buffer.Length ==> buffer[i] == old(buffer[i])
  {
    hide Expand;
    forall i | at <= i < at + n { buffer[i] := zero; }
    var ranges := new Extent[64](_ => Extent(0, 0));
    var unmapped := new bool[64](_ => false);
    label Zeroed:
    var count := BuildExtents(l2p, lba, n, ranges, unmapped);
    assert forall i :: 0 <= i < buffer.Length ==> buffer[i] == old@Zeroed(buffer[i]);
    if count > 0 {
      Distribute(l2p, disk, zero, lba, n, buffer, at, unmapped, Reply(disk, ranges[..count]));
    } else {
      NothingExpands();
      assert ranges[..0] == [];
      forall i | at <= i < at + n
        ensures buffer[i] == ReadBlock(l2p, disk, zero, lba + (i - at))
      {
        NothingMapped(l2p, lba, n, i - at);
      }
    }
  }

  /** The last loop of device_read: each mapped block is copied to its own place. */
  method Distribute<T>(l2p: map<nat, nat>, disk: nat -> T, zero: T, lba: nat, n: nat, buffer: array<T>, at: nat,
                       unmapped: array<bool>, reply: seq<T>)
    requires at + n <= buffer.Length && n <= unmapped.Length && buffer as object != unmapped
    requires forall i :: at <= i < at + n ==> buffer[i] == zero
    requires forall i :: 0 <= i < n ==> (unmapped[i] <==> lba + i !in l2p)
    requires |reply| == |Mapped(l2p, lba, n)|
    requires forall k :: 0 <= k < |reply| ==> reply[k] == disk(Mapped(l2p, lba, n)[k])
    modifies buffer
    ensures forall i :: at <= i < at + n ==> buffer[i] == ReadBlock(l2p, disk, zero, lba + (i - at))
    ensures forall i :: 0 <= i < at || at + n <= i < buffer.Length ==> buffer[i] == old(buffer[i])
  {
    var src, i := 0, 0;
    while i < n
      invariant i <= n && src == |Mapped(l2p, lba, i)|
      invariant forall k :: at <= k < at + i ==> buffer[k] == ReadBlock(l2p, disk, zero, lba + (k - at))
      invariant forall k :: at + i <= k < at + n ==> buffer[k] == zero
      invariant forall k :: 0 <= k < at || at + n <= k < buffer.Length ==> buffer[k] == old(buffer[k])
    {
      if !unmapped[i] {
        MappedPosition(l2p, lba, i, n);
        buffer[at + i] := reply[src];
        src := src + 1;
      }
      i := i + 1;
    }
  }

  /** device_read_wrapper: any number of blocks, at most 64 at a time. */
  method ReadAll<T>(l2p: map<nat, nat>, disk: nat -> T, zero: T, lba: nat, buffer: array<T>)
    modifies buffer
    ensures forall i :: 0 <= i < buffer.Length ==> buffer[i] == ReadBlock(l2p, disk, zero, lba + i)
  {
    var at := 0;
    while at < buffer.Length
      invariant at <= buffer.Length
      invariant forall i :: 0 <= i < at ==> buffer[i] == ReadBlock(l2p, disk, zero, lba + i)
    {
      var chunk := buffer.Length - at;
      if chunk > 64 { chunk := 64; }
      DeviceRead(l2p, disk, zero, lba + at, chunk, buffer, at);
      forall i | at <= i < at + chunk
        ensures buffer[i] == ReadBlock(l2p, disk, zero, lba + i)
      {
        assert lba + at + (i - at) == lba + i;
      }
      at := at + chunk;
    }
  }

  // ---- merge_ranges ----

  /** b starts where a ends. */
  predicate Joins(a: Extent, b: Extent) { a.pba + a.num == b.pba }

  lemma MergeTwo(a: Extent, b: Extent)
    requires Joins(a, b)
    ensures Pbas(Extent(a.pba, a.num + b.num)) == Pbas(a) + Pbas(b)
  {
  }

  lemma {:induction false} ExpandTake(es: seq<Extent>, i: nat)
    requires i < |es|
    ensures Expand(es[..i + 1]) == Expand(es[..i]) + Pbas(es[i])
    ensures |Expand(es[..i + 1])| <= |Expand(es)|
    decreases |es|
  {
    assert es[..i + 1][..i] == es[..i];
    if i + 1 < |es| {
      var most := es[..|es| - 1];
      assert most[..i + 1] == es[..i + 1] && most[..i] == es[..i];
      ExpandTake(most, i);
    } else {
      assert es[..i + 1] == es;
    }
  }

  /** merge_ranges: in place, the same blocks in the same order, and no two neighbours left to
      merge.  num_blocks is a byte, so at most 255 blocks in all. */
  method MergeRanges(ranges: array<Extent>, count: nat) returns (len: nat)
    requires count <= ranges.Length && |Expand(ranges[..count])| <= 255
    modifies ranges
    ensures len <= count && Expand(ranges[..len]) == old(Expand(ranges[..count]))
    ensures forall k :: 0 <= k < len - 1 ==> !Joins(ranges[k], ranges[k + 1])
    ensures forall k :: count <= k < ranges.Length ==> ranges[k] == old(ranges[k])
  {
    hide Expand, Pbas;
    if count == 0 { return 0; }
    ghost var es := ranges[..count];
    ExpandTake(es, 0);
    assert ranges[..1] == es[..1];
    var w, r := 0, 1;
    while r < count
      invariant w < r <= count
      invariant Expand(ranges[..w + 1]) == Expand(es[..r])
      invariant ranges[r..count] == es[r..]
      invariant forall k :: 0 <= k < w ==> !Joins(ranges[k], ranges[k + 1])
      invariant forall k :: count <= k < ranges.Length ==> ranges[k] == old(ranges[k])
    {
      ghost var front, last, next := ranges[..w], ranges[w], es[r];
      assert ranges[r..count][0] == ranges[r] == next;
      assert ranges[..w + 1] == front + [last];
      MergeStep(es, front, last, next, r);
      if ranges[w].pba + ranges[w].num == ranges[r].pba {
        ranges[w] := Extent(ranges[w].pba, (ranges[w].num + ranges[r].num) % 256);
        assert ranges[..w + 1] == front + [Extent(last.pba, last.num + next.num)];
      } else {
        w := w + 1;
        ranges[w] := ranges[r];
        assert ranges[..w + 1] == front + [last] + [next];
      }
      r := r + 1;
      assert ranges[r..count] == es[r..];
    }
    assert es[..r] == es;
    len := w + 1;
  }

  /** One extent more, merged into the last one or not. */
  lemma MergeStep(es: seq<Extent>, front: seq<Extent>, last: Extent, next: Extent, r: nat)
    requires r < |es| && next == es[r] && |Expand(es)| <= 255 && Expand(front + [last]) == Expand(es[..r])
    ensures Expand(front + [last] + [next]) == Expand(es[..r + 1])
    ensures Joins(last, next) ==>
      && (last.num + next.num) % 256 == last.num + next.num
      && Expand(front + [Extent(last.pba, last.num + next.num)]) == Expand(es[..r + 1])
  {
    hide Expand, Pbas;
    ExpandTake(es, r);
    ExpandAppend(front, last);
    ExpandAppend(front + [last], next);
    if Joins(last, next) {
      MergeTwo(last, next);
      ExpandAppend(front, Extent(last.pba, last.num + next.num));
      FitsAByte(front, last, next);
    }
  }

  lemma FitsAByte(before: seq<Extent>, a: Extent, b: Extent)
    requires |Expand(before) + Pbas(a) + Pbas(b)| <= 255
    ensures (a.num + b.num) % 256 == a.num + b.num
  {
  }
}
