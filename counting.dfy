/** The counting argument behind the cycle analysis of parent chains. */
module Counting {

  /** More entries than distinct values allows: some value repeats. */
  lemma {:induction false} Pigeonhole<T>(s: seq<T>, values: set<T>)
    requires |s| > |values|
    requires forall i :: 0 <= i < |s| ==> s[i] in values
    ensures exists i, j :: 0 <= i < j < |s| && s[i] == s[j]
  {
    if s[0] in s[1..] {
      var j :| 1 <= j < |s| && s[j] == s[0];
      assert s[0] == s[j];
    } else {
      var rest := values - {s[0]};
      assert |rest| == |values| - 1;
      forall i | 0 <= i < |s| - 1
        ensures s[1..][i] in rest
      {
        assert s[1..][i] == s[i + 1];
      }
      Pigeonhole(s[1..], rest);
      var i, j :| 0 <= i < j < |s| - 1 && s[1..][i] == s[1..][j];
      assert s[i + 1] == s[j + 1];
    }
  }

  /** The same counting argument, naming the two positions that hold one value. */
  lemma RepeatedPair<T>(s: seq<T>, values: set<T>) returns (i: nat, j: nat)
    requires |s| > |values|
    requires forall k :: 0 <= k < |s| ==> s[k] in values
    ensures i < j < |s| && s[i] == s[j]
  {
    Pigeonhole(s, values);
    i, j :| 0 <= i < j < |s| && s[i] == s[j];
  }
}
