/** Notions that several components share. */
module Common {

  datatype Option<T> = None | Some(value: T)

  ghost function Members(s: seq<nat>): set<nat> {
    set x | x in s
  }

  /** A sequence without repetition has as many members as elements. */
  lemma {:induction false} DistinctCount(s: seq<nat>)
    requires forall i, j :: 0 <= i < j < |s| ==> s[i] != s[j]
    ensures |Members(s)| == |s|
  {
    if s != [] {
      var r := s[..|s| - 1];
      DistinctCount(r);
      assert Members(s) == Members(r) + {s[|s| - 1]};
      assert s[|s| - 1] !in Members(r);
    }
  }
}
