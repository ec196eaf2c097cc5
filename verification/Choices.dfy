/** Paths of choices through a tree, in depth-first order. */
module Choices {
  /** At the first difference `p` takes the earlier branch. */
  predicate Before(p: seq<nat>, q: seq<nat>) {
    p != [] && q != [] && (p[0] < q[0] || (p[0] == q[0] && Before(p[1..], q[1..])))
  }

  ghost predicate InOrder(paths: seq<seq<nat>>) {
    forall i, j :: 0 <= i < j < |paths| ==> Before(paths[i], paths[j])
  }

  /** The paths below branch `j`. */
  function Under(j: nat, paths: seq<seq<nat>>): seq<seq<nat>> {
    seq(|paths|, k requires 0 <= k < |paths| => [j] + paths[k])
  }

  /** Paths below earlier branches come first. */
  lemma {:induction false} OneMoreBranch(before: seq<seq<nat>>, m: nat, last: seq<seq<nat>>)
    requires InOrder(before) && InOrder(last) && forall i :: 0 <= i < |before| ==> before[i] != [] && before[i][0] < m
    ensures InOrder(before + Under(m, last))
  {
    var paths := before + Under(m, last);
    forall i, j | 0 <= i < j < |paths|
      ensures Before(paths[i], paths[j])
    {
      if i >= |before| {
        assert ([m] + last[i - |before|])[1..] == last[i - |before|];
        assert ([m] + last[j - |before|])[1..] == last[j - |before|];
      }
    }
  }

  /** The same paths with one more branch before all others. */
  function Shifted(paths: seq<seq<nat>>): seq<seq<nat>>
    requires forall i :: 0 <= i < |paths| ==> paths[i] != []
  {
    seq(|paths|, k requires 0 <= k < |paths| => [paths[k][0] + 1] + paths[k][1..])
  }

  lemma {:induction false} OneBranchBefore(first: seq<seq<nat>>, rest: seq<seq<nat>>)
    requires InOrder(first) && InOrder(rest) && forall i :: 0 <= i < |rest| ==> rest[i] != []
    ensures InOrder(Under(0, first) + Shifted(rest))
  {
    var paths, n := Under(0, first) + Shifted(rest), |first|;
    forall i, j | 0 <= i < j < |paths|
      ensures Before(paths[i], paths[j])
    {
      if j < n {
        assert ([0] + first[i])[1..] == first[i] && ([0] + first[j])[1..] == first[j];
      } else if i >= n {
        var p, q := rest[i - n], rest[j - n];
        assert Before(p, q);
        assert ([p[0] + 1] + p[1..])[1..] == p[1..] && ([q[0] + 1] + q[1..])[1..] == q[1..];
      }
    }
  }
}
