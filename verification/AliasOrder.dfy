/** The flattening of an alias against an independent description: the leaves
    reached by following choices, in the order of the choices. */
module AliasOrder {
  import opened Text
  import opened Aliases
  import opened Choices

  /** The leaf reached from `a` by taking the given target at each alias. */
  function LeafAt(aliases: AliasMap, a: string, choices: seq<nat>): Option<string>
    decreases |choices|
  {
    if Lower(a) !in aliases then (if choices == [] then Some(a) else None)
    else if choices == [] || choices[0] >= |aliases[Lower(a)]| then None
    else LeafAt(aliases, aliases[Lower(a)][choices[0]], choices[1..])
  }

  /** The paths lead to these leaves, in order, and are all that lead to one. */
  ghost predicate Lead(aliases: AliasMap, a: string, paths: seq<seq<nat>>, leaves: seq<string>) {
    && |paths| == |leaves|
    && (forall i :: 0 <= i < |paths| ==> LeafAt(aliases, a, paths[i]) == Some(leaves[i]))
    && InOrder(paths)
    && (forall p :: LeafAt(aliases, a, p).Some? ==> p in paths)
  }

  /** The same for the first `m` targets of an alias. */
  ghost predicate LeadOf(
    aliases: AliasMap, targets: seq<string>, m: nat, paths: seq<seq<nat>>, leaves: seq<string>)
    requires m <= |targets|
  {
    && |paths| == |leaves|
    && (forall i :: 0 <= i < |paths| ==> PathOf(aliases, targets, m, paths[i], leaves[i]))
    && InOrder(paths)
    && (forall p :: Leads(aliases, targets, m, p) ==> p in paths)
  }

  predicate PathOf(aliases: AliasMap, targets: seq<string>, m: nat, p: seq<nat>, leaf: string)
    requires m <= |targets|
  {
    p != [] && p[0] < m && LeafAt(aliases, targets[p[0]], p[1..]) == Some(leaf)
  }

  predicate Leads(aliases: AliasMap, targets: seq<string>, m: nat, p: seq<nat>)
    requires m <= |targets|
  {
    p != [] && p[0] < m && LeafAt(aliases, targets[p[0]], p[1..]).Some?
  }

  /** The flattening lists the leaves in the order of the choices that lead to
      them, each as often as there are choices that do. */
  lemma {:induction false} LeavesInOrder(aliases: AliasMap, a: string, n: nat) returns (paths: seq<seq<nat>>)
    requires Within(aliases, Lower(a), n)
    ensures Lead(aliases, a, paths, Leaves(aliases, a, n))
    decreases n, 0
  {
    if Lower(a) in aliases {
      var targets := aliases[Lower(a)];
      paths := LeavesOfInOrder(aliases, targets, |targets|, n - 1);
      AliasLeads(aliases, a, paths, Leaves(aliases, a, n));
    } else {
      paths := [[]];
    }
  }

  lemma {:induction false} AliasLeads(aliases: AliasMap, a: string, paths: seq<seq<nat>>, leaves: seq<string>)
    requires Lower(a) in aliases
    requires LeadOf(aliases, aliases[Lower(a)], |aliases[Lower(a)]|, paths, leaves)
    ensures Lead(aliases, a, paths, leaves)
  {
    var targets := aliases[Lower(a)];
    forall i | 0 <= i < |paths|
      ensures LeafAt(aliases, a, paths[i]) == Some(leaves[i])
    {
      assert PathOf(aliases, targets, |targets|, paths[i], leaves[i]);
    }
    forall p | LeafAt(aliases, a, p).Some?
      ensures p in paths
    {
      assert Leads(aliases, targets, |targets|, p);
    }
  }

  lemma {:induction false} LeavesOfInOrder(aliases: AliasMap, targets: seq<string>, m: nat, n: nat)
    returns (paths: seq<seq<nat>>)
    requires m <= |targets| && forall j :: 0 <= j < m ==> Within(aliases, Lower(targets[j]), n)
    ensures LeadOf(aliases, targets, m, paths, LeavesOf(aliases, targets, m, n))
    decreases n, m + 1
  {
    if m == 0 {
      paths := [];
    } else {
      var before := LeavesOfInOrder(aliases, targets, m - 1, n);
      var last := LeavesInOrder(aliases, targets[m - 1], n);
      paths := before + Under(m - 1, last);
      OneMoreTarget(aliases, targets, m - 1, before, LeavesOf(aliases, targets, m - 1, n),
                    last, Leaves(aliases, targets[m - 1], n));
    }
  }

  lemma {:induction false} OneMoreTarget(
    aliases: AliasMap, targets: seq<string>, m: nat, before: seq<seq<nat>>, leaves: seq<string>,
    last: seq<seq<nat>>, more: seq<string>)
    requires m < |targets| && LeadOf(aliases, targets, m, before, leaves)
    requires Lead(aliases, targets[m], last, more)
    ensures LeadOf(aliases, targets, m + 1, before + Under(m, last), leaves + more)
  {
    var paths, all := before + Under(m, last), leaves + more;
    forall i | 0 <= i < |paths|
      ensures PathOf(aliases, targets, m + 1, paths[i], all[i])
      ensures if i < |before| then paths[i] == before[i] && PathOf(aliases, targets, m, before[i], leaves[i])
              else paths[i] == [m] + last[i - |before|]
    {
      if i < |before| {
        assert PathOf(aliases, targets, m, before[i], leaves[i]);
      } else {
        assert ([m] + last[i - |before|])[1..] == last[i - |before|];
      }
    }
    OneMoreBranch(before, m, last);
    forall p | Leads(aliases, targets, m + 1, p)
      ensures p in paths
    {
      if p[0] < m {
        assert Leads(aliases, targets, m, p);
      } else {
        var k :| 0 <= k < |last| && last[k] == p[1..];
        assert p == [m] + last[k] && paths[|before| + k] == p;
      }
    }
  }
}
