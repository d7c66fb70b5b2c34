/** device_write: where each block of a write request's payload is headed.  The allocator returns
    one piece at a time; the payload is assembled from the user's buffer and the two log blocks in
    one of five layouts. */
module WriteLayout {
  import opened Extents

  /** What one call of find_free_range returned. */
  datatype Piece = Data(pba: nat, num: nat) | TdLog(pba: nat) | VersionLog(pba: nat)

  function ExtentOf(p: Piece): Extent {
    match p
    case Data(pba, num) => Extent(pba, num)
    case TdLog(pba) => Extent(pba, 1)
    case VersionLog(pba) => Extent(pba, 1)
  }

  function ExtentsOf(pieces: seq<Piece>): (es: seq<Extent>)
    ensures |es| == |pieces|
  {
    seq(|pieces|, i requires 0 <= i < |pieces| => ExtentOf(pieces[i]))
  }

  /** How many user blocks the pieces take: cur_lba_offset. */
  function UserBlocks(pieces: seq<Piece>): nat {
    if pieces == [] then 0
    else UserBlocks(pieces[..|pieces| - 1]) + match pieces[|pieces| - 1] { case Data(_, num) => num case _ => 0 }
  }

  /** The blocks meant for one piece. */
  function Part<T>(before: seq<Piece>, p: Piece, user: seq<T>, td: T, version: T): seq<T>
    requires UserBlocks(before + [p]) <= |user|
  {
    UserAppend(before, p);
    match p
    case Data(_, num) => user[UserBlocks(before)..UserBlocks(before) + num]
    case TdLog(_) => [td]
    case VersionLog(_) => [version]
  }

  /** The block meant for each address of the pieces, in order. */
  function Meant<T>(pieces: seq<Piece>, user: seq<T>, td: T, version: T): seq<T>
    requires UserBlocks(pieces) <= |user|
  {
    if pieces == [] then []
    else
      var most, last := pieces[..|pieces| - 1], pieces[|pieces| - 1];
      assert pieces == most + [last];
      UserAppend(most, last);
      Meant(most, user, td, version) + Part(most, last, user, td, version)
  }

  lemma UserAppend(pieces: seq<Piece>, p: Piece)
    ensures UserBlocks(pieces + [p]) == UserBlocks(pieces) + match p { case Data(_, num) => num case _ => 0 }
  {
    assert (pieces + [p])[..|pieces|] == pieces;
  }

  /** At most one log block of each kind; with no user block between them the timelock log comes
      first, because the allocator tests it first. */
  ghost predicate OneOfEach(pieces: seq<Piece>) {
    && (forall i, j :: 0 <= i < j < |pieces| ==> !(pieces[i].TdLog? && pieces[j].TdLog?))
    && (forall i, j :: 0 <= i < j < |pieces| ==> !(pieces[i].VersionLog? && pieces[j].VersionLog?))
    && (forall i, j :: 0 <= i < j < |pieces| && pieces[i].VersionLog? && pieces[j].TdLog? ==>
         UserBlocks(pieces[..i]) < UserBlocks(pieces[..j]))
  }

  /** The two kinds of log block never share an address. */
  ghost predicate LogsApart(pieces: seq<Piece>) {
    forall i, j :: 0 <= i < |pieces| && 0 <= j < |pieces| && pieces[i].TdLog? && pieces[j].VersionLog? ==>
      pieces[i].pba != pieces[j].pba
  }

  // ---- Landing ----

  lemma {:induction false} UserMonotonic(pieces: seq<Piece>, k: nat)
    requires k <= |pieces|
    ensures UserBlocks(pieces[..k]) <= UserBlocks(pieces)
    decreases |pieces|
  {
    if k < |pieces| {
      var most := pieces[..|pieces| - 1];
      assert most[..k] == pieces[..k];
      UserMonotonic(most, k);
    } else {
      assert pieces[..k] == pieces;
    }
  }

  lemma ExtentsAppend(pieces: seq<Piece>, p: Piece)
    ensures ExtentsOf(pieces + [p]) == ExtentsOf(pieces) + [ExtentOf(p)]
  {
  }

  lemma {:induction false} MeantLength<T>(pieces: seq<Piece>, user: seq<T>, td: T, version: T)
    requires UserBlocks(pieces) <= |user|
    ensures |Meant(pieces, user, td, version)| == |Expand(ExtentsOf(pieces))|
    decreases |pieces|
  {
    if pieces != [] {
      var most, last := pieces[..|pieces| - 1], pieces[|pieces| - 1];
      assert pieces == most + [last];
      UserAppend(most, last);
      MeantLength(most, user, td, version);
      ExtentsAppend(most, last);
      ExpandAppend(ExtentsOf(most), ExtentOf(last));
    }
  }

  lemma MeantAppend<T>(most: seq<Piece>, last: Piece, user: seq<T>, td: T, version: T)
    requires UserBlocks(most + [last]) <= |user|
    ensures UserBlocks(most) <= |user|
    ensures Meant(most + [last], user, td, version)
      == Meant(most, user, td, version) + Part(most, last, user, td, version)
  {
    UserAppend(most, last);
    assert (most + [last])[..|most|] == most;
  }

  /** Position by position the intended blocks line up with the addresses: the user's blocks in
      buffer order, each log block at the address reserved for it. */
  lemma {:induction false} PieceLands<T>(pieces: seq<Piece>, user: seq<T>, td: T, version: T, k: nat, i: nat)
    requires UserBlocks(pieces) <= |user| && k < |pieces| && i < ExtentOf(pieces[k]).num
    ensures UserBlocks(pieces[..k] + [pieces[k]]) <= |user| && i < |Part(pieces[..k], pieces[k], user, td, version)|
    ensures
      var j := |Expand(ExtentsOf(pieces[..k]))| + i;
      && j < |Meant(pieces, user, td, version)| == |Expand(ExtentsOf(pieces))|
      && Expand(ExtentsOf(pieces))[j] == pieces[k].pba + i
      && Meant(pieces, user, td, version)[j] == Part(pieces[..k], pieces[k], user, td, version)[i]
    decreases |pieces|
  {
    hide Expand, Meant, Part, UserBlocks, ExtentOf;
    var most, last := pieces[..|pieces| - 1], pieces[|pieces| - 1];
    assert pieces == most + [last];
    assert pieces[..k + 1] == pieces[..k] + [pieces[k]];
    UserMonotonic(pieces, k + 1);
    MeantAppend(most, last, user, td, version);
    MeantLength(pieces, user, td, version);
    MeantLength(most, user, td, version);
    ExtentsAppend(most, last);
    ExpandAppend(ExtentsOf(most), ExtentOf(last));
    if k < |most| {
      assert most[..k] == pieces[..k];
      PieceLands(most, user, td, version, k, i);
    } else {
      assert pieces[..k] == most;
      PartLength(most, last, user, td, version);
    }
  }

  lemma PartLength<T>(before: seq<Piece>, p: Piece, user: seq<T>, td: T, version: T)
    requires UserBlocks(before + [p]) <= |user|
    ensures |Part(before, p, user, td, version)| == ExtentOf(p).num && ExtentOf(p).pba == p.pba
  {
    UserAppend(before, p);
  }

  // ---- Assembling the payload ----

  /** The user's blocks with the log blocks spliced in at their offsets, -1 for none. */
  function Spliced<T>(u: seq<T>, hd: int, vo: int, td: T, version: T): seq<T>
    requires hd <= |u| && vo <= |u|
  {
    if hd < 0 && vo < 0 then u
    else if hd < 0 then u[..vo] + [version] + u[vo..]
    else if vo < 0 then u[..hd] + [td] + u[hd..]
    else if vo < hd then u[..vo] + [version] + u[vo..hd] + [td] + u[hd..]
    else u[..hd] + [td] + u[hd..vo] + [version] + u[vo..]
  }

  lemma SplicedGrows<T>(u: seq<T>, hd: int, vo: int, td: T, version: T, more: seq<T>)
    requires hd <= |u| && vo <= |u|
    ensures Spliced(u + more, hd, vo, td, version) == Spliced(u, hd, vo, td, version) + more
  {
    var w := u + more;
    if hd >= 0 { assert w[..hd] == u[..hd] && w[hd..] == u[hd..] + more; }
    if vo >= 0 { assert w[..vo] == u[..vo] && w[vo..] == u[vo..] + more; }
    if 0 <= vo < hd { assert w[vo..hd] == u[vo..hd]; }
    if 0 <= hd <= vo { assert w[hd..vo] == u[hd..vo]; }
  }

  lemma SplicedAtEnd<T>(u: seq<T>, hd: int, vo: int, td: T, version: T)
    requires hd <= |u| && vo <= |u|
    ensures hd < 0 && vo < |u| ==> Spliced(u, |u|, vo, td, version) == Spliced(u, hd, vo, td, version) + [td]
    ensures vo < 0 ==> Spliced(u, hd, |u|, td, version) == Spliced(u, hd, vo, td, version) + [version]
  {
  }

  /** hd_offset and version_offset after the allocation loop. */
  function HdOffset(pieces: seq<Piece>): (o: int)
    ensures -1 <= o
  {
    if pieces == [] then -1
    else if pieces[|pieces| - 1].TdLog? then UserBlocks(pieces[..|pieces| - 1]) else HdOffset(pieces[..|pieces| - 1])
  }

  function VersionOffset(pieces: seq<Piece>): (o: int)
    ensures -1 <= o
  {
    if pieces == [] then -1
    else if pieces[|pieces| - 1].VersionLog? then UserBlocks(pieces[..|pieces| - 1])
    else VersionOffset(pieces[..|pieces| - 1])
  }

  lemma {:induction false} OffsetsOf(pieces: seq<Piece>)
    ensures HdOffset(pieces) <= UserBlocks(pieces) && VersionOffset(pieces) <= UserBlocks(pieces)
    ensures HdOffset(pieces) >= 0 ==> exists i :: 0 <= i < |pieces| && pieces[i].TdLog?
    ensures VersionOffset(pieces) >= 0 ==>
      exists i :: 0 <= i < |pieces| && pieces[i].VersionLog? && UserBlocks(pieces[..i]) == VersionOffset(pieces)
    decreases |pieces|
  {
    if pieces != [] {
      var most, last := pieces[..|pieces| - 1], pieces[|pieces| - 1];
      assert pieces == most + [last];
      UserAppend(most, last);
      OffsetsOf(most);
      if VersionOffset(pieces) >= 0 && !last.VersionLog? {
        var i :| 0 <= i < |most| && most[i].VersionLog? && UserBlocks(most[..i]) == VersionOffset(most);
        assert most[..i] == pieces[..i];
      }
    }
  }

  lemma OneOfEachBefore(most: seq<Piece>, last: Piece)
    requires OneOfEach(most + [last])
    ensures OneOfEach(most)
    ensures last.TdLog? ==> HdOffset(most) < 0 && VersionOffset(most) < UserBlocks(most)
    ensures last.VersionLog? ==> VersionOffset(most) < 0
  {
    var pieces := most + [last];
    assert forall i :: 0 <= i < |most| ==> pieces[i] == most[i] && pieces[..i] == most[..i];
    assert pieces[|most|] == last && pieces[..|most|] == most;
    OffsetsOf(most);
    OffsetIsReal(most);
  }

  lemma {:induction false} OffsetIsReal(pieces: seq<Piece>)
    ensures VersionOffset(pieces) >= 0 ==> exists i :: 0 <= i < |pieces| && pieces[i].VersionLog?
    decreases |pieces|
  {
    if pieces != [] && !pieces[|pieces| - 1].VersionLog? { OffsetIsReal(pieces[..|pieces| - 1]); }
  }

  /** What the layout computes from the two offsets is what the pieces mean. */
  lemma {:induction false} MeantIsSpliced<T>(pieces: seq<Piece>, user: seq<T>, td: T, version: T)
    requires OneOfEach(pieces) && UserBlocks(pieces) <= |user|
    ensures HdOffset(pieces) <= UserBlocks(pieces) && VersionOffset(pieces) <= UserBlocks(pieces)
    ensures Meant(pieces, user, td, version)
      == Spliced(user[..UserBlocks(pieces)], HdOffset(pieces), VersionOffset(pieces), td, version)
    decreases |pieces|
  {
    hide Spliced, OneOfEach, Meant;
    OffsetsOf(pieces);
    if pieces == [] {
      EmptyPieces(user, td, version);
    } else {
      var most, last := pieces[..|pieces| - 1], pieces[|pieces| - 1];
      assert pieces == most + [last];
      UserAppend(most, last);
      OneOfEachBefore(most, last);
      OffsetsOf(most);
      MeantAppend(most, last, user, td, version);
      MeantIsSpliced(most, user, td, version);
      var u := user[..UserBlocks(most)];
      SplicedAtEnd(u, HdOffset(most), VersionOffset(most), td, version);
      if last.Data? {
        var more := user[UserBlocks(most)..UserBlocks(most) + last.num];
        assert user[..UserBlocks(pieces)] == u + more;
        SplicedGrows(u, HdOffset(most), VersionOffset(most), td, version, more);
      }
    }
  }

  lemma EmptyPieces<T>(user: seq<T>, td: T, version: T)
    ensures Meant([], user, td, version) == Spliced(user[..0], -1, -1, td, version)
  {
  }

  /** hd is -1 without a timelock log block among the pieces; otherwise tie is its address. */
  ghost predicate TdTie(pieces: seq<Piece>, hd: int, tie: nat) {
    && (hd >= 0 <==> exists j :: 0 <= j < |pieces| && pieces[j].TdLog?)
    && forall j :: 0 <= j < |pieces| && pieces[j].TdLog? ==> pieces[j].pba == tie
  }

  ghost predicate VersionTie(pieces: seq<Piece>, vo: int, tie: nat) {
    && (vo >= 0 <==> exists j :: 0 <= j < |pieces| && pieces[j].VersionLog?)
    && forall j :: 0 <= j < |pieces| && pieces[j].VersionLog? ==> pieces[j].pba == tie
  }

  lemma NoTies()
    ensures TdTie([], -1, 0) && VersionTie([], -1, 0)
  {
  }

  lemma TiesMore(pieces: seq<Piece>, i: nat, at: nat, hd: int, vo: int, tdTie: nat, versionTie: nat)
    requires OneOfEach(pieces) && i < |pieces|
    requires TdTie(pieces[..i], hd, tdTie) && VersionTie(pieces[..i], vo, versionTie)
    ensures
      if pieces[i].TdLog? then TdTie(pieces[..i + 1], at, pieces[i].pba) else TdTie(pieces[..i + 1], hd, tdTie)
    ensures
      if pieces[i].VersionLog? then VersionTie(pieces[..i + 1], at, pieces[i].pba)
      else VersionTie(pieces[..i + 1], vo, versionTie)
  {
    hide UserBlocks;
    var more := pieces[..i + 1];
    assert more == pieces[..i] + [pieces[i]] && more[i] == pieces[i];
    assert forall j :: 0 <= j < i ==> more[j] == pieces[..i][j] == pieces[j];
  }

  lemma ApartIff(pieces: seq<Piece>, hd: int, vo: int, tdTie: nat, versionTie: nat)
    requires TdTie(pieces, hd, tdTie) && VersionTie(pieces, vo, versionTie) && hd >= 0 && vo >= 0
    ensures LogsApart(pieces) <==> tdTie != versionTie
  {
    var i :| 0 <= i < |pieces| && pieces[i].TdLog?;
    var j :| 0 <= j < |pieces| && pieces[j].VersionLog?;
    assert pieces[i].pba == tdTie && pieces[j].pba == versionTie;
  }

  /** The payload part of device_write.  ok is false exactly where the original gives up: equal
      offsets above zero with equal addresses. */
  method BuildPayload<T>(pieces: seq<Piece>, user: seq<T>, td: T, version: T) returns (ok: bool, payload: seq<T>)
    requires OneOfEach(pieces) && UserBlocks(pieces) == |user|
    ensures ok ==> payload == Meant(pieces, user, td, version)
    ensures !ok <==> HdOffset(pieces) == VersionOffset(pieces) > 0 && !LogsApart(pieces)
  {
    hide Meant, OneOfEach, TdTie, VersionTie, LogsApart;
    NoTies();
    var hd, vo, at, tdTie, versionTie := -1, -1, 0, 0, 0;
    var i := 0;
    assert pieces[..0] == [];
    while i < |pieces|
      invariant i <= |pieces| && at == UserBlocks(pieces[..i])
      invariant hd == HdOffset(pieces[..i]) && vo == VersionOffset(pieces[..i])
      invariant TdTie(pieces[..i], hd, tdTie) && VersionTie(pieces[..i], vo, versionTie)
    {
      TiesMore(pieces, i, at, hd, vo, tdTie, versionTie);
      assert pieces[..i + 1][..i] == pieces[..i];
      match pieces[i] {
        case Data(_, num) => at := at + num;
        case TdLog(pba) => hd, tdTie := at, pba;
        case VersionLog(pba) => vo, versionTie := at, pba;
      }
      i := i + 1;
    }
    assert pieces[..i] == pieces;
    assert user[..|user|] == user;
    if hd >= 0 && vo >= 0 { ApartIff(pieces, hd, vo, tdTie, versionTie); }
    OffsetsOf(pieces);
    MeantIsSpliced(pieces, user, td, version);
    if vo >= 0 && hd < 0 {
      payload := user[..vo] + [version] + user[vo..];
    } else if vo < 0 && hd >= 0 {
      payload := user[..hd] + [td] + user[hd..];
    } else if vo == hd && vo > 0 {
      if tdTie < versionTie {
        payload := user[..vo] + [td] + [version] + user[vo..];
      } else if tdTie > versionTie {
        payload := user[..vo] + [td] + [version] + user[vo..];
      } else {
        return false, [];
      }
      assert user[hd..vo] == [];
    } else if vo >= 0 && hd >= 0 {
      if vo < hd {
        payload := user[..vo] + [version] + user[vo..hd] + [td] + user[hd..];
      } else {
        payload := user[..hd] + [td] + user[hd..vo] + [version] + user[vo..];
      }
    } else {
      payload := user;
    }
    ok := true;
  }

  lemma {:induction false} ExpandSize(pieces: seq<Piece>)
    ensures |Expand(ExtentsOf(pieces))| <= UserBlocks(pieces) + |pieces|
    decreases |pieces|
  {
    if pieces != [] {
      var most, last := pieces[..|pieces| - 1], pieces[|pieces| - 1];
      assert pieces == most + [last];
      UserAppend(most, last);
      ExpandSize(most);
      ExtentsAppend(most, last);
      ExpandAppend(ExtentsOf(most), ExtentOf(last));
    }
  }

  /** The request as it is sent: merged ranges and payload.  The j-th payload block is the one
      meant for the j-th address of the merged ranges. */
  method Assemble<T>(pieces: seq<Piece>, user: seq<T>, td: T, version: T, ranges: array<Extent>)
    returns (ok: bool, count: nat, payload: seq<T>)
    requires OneOfEach(pieces) && LogsApart(pieces) && UserBlocks(pieces) == |user|
    requires |user| <= 64 && |pieces| <= 64 <= ranges.Length
    modifies ranges
    ensures ok && count <= |pieces| && Expand(ranges[..count]) == Expand(ExtentsOf(pieces))
    ensures payload == Meant(pieces, user, td, version) && |payload| == |Expand(ranges[..count])|
    ensures forall k :: 0 <= k < count - 1 ==> !Joins(ranges[k], ranges[k + 1])
  {
    hide Expand, Meant, OneOfEach, LogsApart, UserBlocks, Joins;
    forall i | 0 <= i < |pieces| { ranges[i] := ExtentOf(pieces[i]); }
    assert ranges[..|pieces|] == ExtentsOf(pieces);
    ExpandSize(pieces);
    count := MergeRanges(ranges, |pieces|);
    ok, payload := BuildPayload(pieces, user, td, version);
    MeantLength(pieces, user, td, version);
  }
}
