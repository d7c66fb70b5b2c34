/** Shared vocabulary. */
module Collections {
  datatype Option<T> = None | Some(value: T)

  ghost predicate Distinct(s: seq<nat>) { forall i, j :: 0 <= i < j < |s| ==> s[i] != s[j] }

  ghost function SetOf(s: seq<nat>): set<nat> { set x | x in s }

  lemma {:induction false} DistinctSize(s: seq<nat>)
    requires Distinct(s)
    ensures |SetOf(s)| == |s|
  {
    if s == [] {
      assert SetOf(s) == {};
    } else {
      var most, x := s[..|s| - 1], s[|s| - 1];
      DistinctSize(most);
      assert s == most + [x] && x !in most;
      assert SetOf(s) == SetOf(most) + {x};
    }
  }

  lemma {:induction false} SubsetSize(s: set<nat>, t: set<nat>)
    requires s <= t
    ensures |s| <= |t|
    decreases |s|
  {
    if x :| x in s { SubsetSize(s - {x}, t - {x}); }
  }
}
