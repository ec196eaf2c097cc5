/** Expansion of administrator-owned aliases to enabled mailboxes. */
module Aliases {
  import opened Text

  datatype User = User(username: string, email: string, enabled: bool)

  type AliasMap = map<string, seq<string>>

  datatype Failure = AliasLoop | TooLarge | UserNotFound

  datatype Result = Resolved(mailboxes: seq<string>) | Failed(reason: Failure)

  const MaxPath := 21
  const MaxMailboxes := 1000

  // ---------- the alias graph ----------

  predicate Edge(aliases: AliasMap, x: string, y: string) {
    x in aliases && exists j :: 0 <= j < |aliases[x]| && Lower(aliases[x][j]) == y
  }

  ghost predicate Walk(aliases: AliasMap, path: seq<string>) {
    path != [] && forall i :: 0 <= i < |path| - 1 ==> Edge(aliases, path[i], path[i + 1])
  }

  /** No walk from `key` has more than `n` addresses. */
  ghost predicate Within(aliases: AliasMap, key: string, n: nat)
    decreases n
  {
    n > 0 && (key in aliases ==> forall j :: 0 <= j < |aliases[key]| ==> Within(aliases, Lower(aliases[key][j]), n - 1))
  }

  lemma {:induction false} WithinBoundsWalks(aliases: AliasMap, path: seq<string>, n: nat)
    requires Walk(aliases, path) && Within(aliases, path[0], n)
    ensures |path| <= n
    decreases n
  {
    if |path| > 1 {
      assert Edge(aliases, path[0], path[1]);
      assert Walk(aliases, path[1..]) by {
        forall i | 0 <= i < |path[1..]| - 1
          ensures Edge(aliases, path[1..][i], path[1..][i + 1])
        {
          assert Edge(aliases, path[i + 1], path[i + 2]);
        }
      }
      WithinBoundsWalks(aliases, path[1..], n - 1);
    }
  }

  lemma {:induction false} LongWalk(aliases: AliasMap, key: string, n: nat) returns (path: seq<string>)
    requires !Within(aliases, key, n)
    ensures Walk(aliases, path) && path[0] == key && |path| == n + 1
    decreases n
  {
    if n == 0 {
      path := [key];
    } else {
      var j :| 0 <= j < |aliases[key]| && !Within(aliases, Lower(aliases[key][j]), n - 1);
      var rest := LongWalk(aliases, Lower(aliases[key][j]), n - 1);
      path := [key] + rest;
      forall i | 0 <= i < |path| - 1
        ensures Edge(aliases, path[i], path[i + 1])
      {
        if i > 0 { assert Edge(aliases, rest[i - 1], rest[i]); }
      }
    }
  }

  /** The recursive bound is the bound on walks. */
  lemma {:induction false} WithinMeansShortWalks(aliases: AliasMap, key: string, n: nat)
    ensures Within(aliases, key, n) <==> forall path :: Walk(aliases, path) && path[0] == key ==> |path| <= n
  {
    if Within(aliases, key, n) {
      forall path | Walk(aliases, path) && path[0] == key
        ensures |path| <= n
      {
        WithinBoundsWalks(aliases, path, n);
      }
    } else {
      var path := LongWalk(aliases, key, n);
      assert |path| > n;
    }
  }

  lemma {:induction false} WithinAlong(aliases: AliasMap, path: seq<string>, n: nat)
    requires Walk(aliases, path) && Within(aliases, path[0], n)
    ensures |path| <= n && Within(aliases, path[|path| - 1], n - (|path| - 1))
    decreases |path|
  {
    WithinBoundsWalks(aliases, path, n);
    if |path| > 1 {
      assert Edge(aliases, path[0], path[1]);
      assert Walk(aliases, path[1..]) by {
        forall i | 0 <= i < |path[1..]| - 1
          ensures Edge(aliases, path[1..][i], path[1..][i + 1])
        {
          assert Edge(aliases, path[i + 1], path[i + 2]);
        }
      }
      WithinAlong(aliases, path[1..], n - 1);
    }
  }

  /** An address on a cycle is within no bound. */
  lemma {:induction false} CycleIsUnbounded(aliases: AliasMap, path: seq<string>, n: nat)
    requires Walk(aliases, path) && |path| > 1 && path[0] == path[|path| - 1]
    ensures !Within(aliases, path[0], n)
    decreases n
  {
    if Within(aliases, path[0], n) {
      WithinAlong(aliases, path, n);
      CycleIsUnbounded(aliases, path, n - (|path| - 1));
    }
  }

  // ---------- the depth-first flattening ----------

  /** The leaves below `a` from left to right, with repetitions. */
  ghost function Leaves(aliases: AliasMap, a: string, n: nat): seq<string>
    requires Within(aliases, Lower(a), n)
    decreases n, 0
  {
    if Lower(a) in aliases then LeavesOf(aliases, aliases[Lower(a)], |aliases[Lower(a)]|, n - 1) else [a]
  }

  /** The leaves below the first `i` targets. */
  ghost function LeavesOf(aliases: AliasMap, targets: seq<string>, i: nat, n: nat): seq<string>
    requires i <= |targets| && forall j :: 0 <= j < i ==> Within(aliases, Lower(targets[j]), n)
    decreases n, i + 1
  {
    if i == 0 then [] else LeavesOf(aliases, targets, i - 1, n) + Leaves(aliases, targets[i - 1], n)
  }

  predicate Serves(u: User, a: string) {
    u.enabled && (EqualFold(u.email, a) || EqualFold(u.username, a))
  }

  /** `mailbox` is the address of an enabled account that answers to `a`. */
  ghost predicate Answers(users: map<string, User>, a: string, mailbox: string) {
    exists k :: k in users && Serves(users[k], a) && users[k].email == mailbox
  }

  ghost predicate Deliverable(users: map<string, User>, a: string) {
    exists k :: k in users && Serves(users[k], a)
  }

  ghost predicate Resolvable(aliases: AliasMap, users: map<string, User>, a: string, n: nat) {
    && Within(aliases, Lower(a), n)
    && |Leaves(aliases, a, n)| <= MaxMailboxes
    && forall x :: x in Leaves(aliases, a, n) ==> Deliverable(users, x)
  }

  /** One mailbox for each leaf, in order. */
  ghost predicate Flattens(users: map<string, User>, leaves: seq<string>, mailboxes: seq<string>) {
    |mailboxes| == |leaves| && forall i :: 0 <= i < |leaves| ==> Answers(users, leaves[i], mailboxes[i])
  }

  lemma {:induction false} PieceOfTargets(aliases: AliasMap, targets: seq<string>, i: nat, m: nat, n: nat)
    requires i < m <= |targets| && forall j :: 0 <= j < m ==> Within(aliases, Lower(targets[j]), n)
    ensures LeavesOf(aliases, targets, i + 1, n) <= LeavesOf(aliases, targets, m, n)
    ensures forall x :: x in Leaves(aliases, targets[i], n) ==> x in LeavesOf(aliases, targets, m, n)
    ensures |Leaves(aliases, targets[i], n)| <= |LeavesOf(aliases, targets, m, n)|
    decreases m
  {
    if i < m - 1 {
      PieceOfTargets(aliases, targets, i, m - 1, n);
    }
  }

  lemma {:induction false} BadTarget(aliases: AliasMap, users: map<string, User>, a: string, i: nat, n: nat)
    requires n > 0 && Lower(a) in aliases && i < |aliases[Lower(a)]|
    requires !Resolvable(aliases, users, aliases[Lower(a)][i], n - 1)
    ensures !Resolvable(aliases, users, a, n)
  {
    var targets := aliases[Lower(a)];
    if Within(aliases, Lower(a), n) {
      PieceOfTargets(aliases, targets, i, |targets|, n - 1);
    }
  }

  lemma {:induction false} TooManyAlready(aliases: AliasMap, users: map<string, User>, a: string, i: nat, n: nat)
    requires n > 0 && Lower(a) in aliases && 0 < i <= |aliases[Lower(a)]|
    requires forall j :: 0 <= j < i ==> Within(aliases, Lower(aliases[Lower(a)][j]), n - 1)
    requires |LeavesOf(aliases, aliases[Lower(a)], i, n - 1)| > MaxMailboxes
    ensures !Resolvable(aliases, users, a, n)
  {
    var targets := aliases[Lower(a)];
    if Within(aliases, Lower(a), n) {
      PieceOfTargets(aliases, targets, i - 1, |targets|, n - 1);
    }
  }

  /** `out` flattens the first `i` targets. */
  ghost predicate Progress(
    aliases: AliasMap, users: map<string, User>, targets: seq<string>, i: nat, n: nat, out: seq<string>) {
    && i <= |targets|
    && (forall j :: 0 <= j < i ==> Within(aliases, Lower(targets[j]), n))
    && Flattens(users, LeavesOf(aliases, targets, i, n), out)
    && forall x :: x in LeavesOf(aliases, targets, i, n) ==> Deliverable(users, x)
  }

  lemma {:induction false} ProgressStep(
    aliases: AliasMap, users: map<string, User>, targets: seq<string>, i: nat, n: nat, out: seq<string>,
    more: seq<string>)
    requires Progress(aliases, users, targets, i, n, out) && i < |targets|
    requires Resolvable(aliases, users, targets[i], n) && Flattens(users, Leaves(aliases, targets[i], n), more)
    ensures Progress(aliases, users, targets, i + 1, n, out + more)
  {
  }

  /** The accounts are visited in any order; the first that answers is taken. */
  method Recipient(users: map<string, User>, address: string) returns (r: Option<User>)
    ensures r.Some? ==> Serves(r.value, address) && Answers(users, address, r.value.email)
    ensures r.None? ==> !Deliverable(users, address)
  {
    var keys := users.Keys;
    while keys != {}
      invariant keys <= users.Keys
      invariant forall k :: k in users && k !in keys ==> !Serves(users[k], address)
    {
      var k :| k in keys;
      keys := keys - {k};
      var u := users[k];
      if u.enabled && (EqualFold(u.email, address) || EqualFold(u.username, address)) {
        return Some(u);
      }
    }
    return None;
  }

  class Resolver {
    const aliases: AliasMap
    const users: map<string, User>
    var seen: set<string>

    constructor (aliases: AliasMap, users: map<string, User>)
      ensures this.aliases == aliases && this.users == users && seen == {}
    {
      this.aliases, this.users, seen := aliases, users, {};
    }

    /** `path` is the walk of addresses being expanded; `seen` holds its members. */
    ghost predicate OnPath(path: seq<string>, a: string)
      reads this
    {
      && (forall k :: k in seen <==> k in path)
      && |seen| == |path| <= MaxPath
      && Walk(aliases, path + [Lower(a)])
    }

    method Resolve(a: string, ghost path: seq<string>) returns (r: Result)
      requires OnPath(path, a)
      modifies this`seen
      ensures seen == old(seen)
      ensures r.Resolved? <==> Resolvable(aliases, users, a, MaxPath - |path|)
      ensures r.Resolved? ==> Flattens(users, Leaves(aliases, a, MaxPath - |path|), r.mailboxes)
      decreases MaxPath - |path|, 1
    {
      var key := Lower(a);
      if key in seen || |seen| > 20 {
        if key in path { Revisited(aliases, path, key, MaxPath - |path|); }
        return Failed(AliasLoop);
      }
      seen := seen + {key};
      if key in aliases {
        r := Expand(a, key, path);
        seen := seen - {key};
        return;
      }
      var u := Recipient(users, a);
      seen := seen - {key};
      if u.None? {
        assert a in Leaves(aliases, a, MaxPath - |path|);
        return Failed(UserNotFound);
      }
      return Resolved([u.value.email]);
    }

    /** The loop over the targets of one alias. */
    method Expand(a: string, key: string, ghost path: seq<string>) returns (r: Result)
      requires key == Lower(a) && key in aliases && key !in path && |path| < MaxPath
      requires |seen| == |path| + 1 && (forall k :: k in seen <==> k in path || k == key) && Walk(aliases, path + [key])
      modifies this`seen
      ensures seen == old(seen)
      ensures r.Resolved? <==> Resolvable(aliases, users, a, MaxPath - |path|)
      ensures r.Resolved? ==> Flattens(users, Leaves(aliases, a, MaxPath - |path|), r.mailboxes)
      decreases MaxPath - |path|, 0
    {
      ghost var n := MaxPath - |path| - 1;
      var targets := aliases[key];
      var out: seq<string> := [];
      for i := 0 to |targets|
        invariant seen == old(seen)
        invariant Progress(aliases, users, targets, i, n, out) && |out| <= MaxMailboxes
      {
        StepDown(path, key, targets[i], i);
        var v := Resolve(targets[i], path + [key]);
        if v.Failed? {
          BadTarget(aliases, users, a, i, n + 1);
          return v;
        }
        ProgressStep(aliases, users, targets, i, n, out, v.mailboxes);
        out := out + v.mailboxes;
        if |out| > MaxMailboxes {
          TooManyAlready(aliases, users, a, i + 1, n + 1);
          return Failed(TooLarge);
        }
      }
      return Resolved(out);
    }

    lemma StepDown(path: seq<string>, key: string, target: string, i: nat)
      requires Walk(aliases, path + [key]) && key !in path && |path| < MaxPath
      requires key in aliases && i < |aliases[key]| && aliases[key][i] == target
      requires |seen| == |path| + 1 && forall k :: k in seen <==> k in path || k == key
      ensures OnPath(path + [key], target)
    {
      var longer := path + [key] + [Lower(target)];
      forall j | 0 <= j < |longer| - 1
        ensures Edge(aliases, longer[j], longer[j + 1])
      {
        if j < |path| {
          assert Edge(aliases, (path + [key])[j], (path + [key])[j + 1]);
        }
      }
    }
  }

  lemma {:induction false} Revisited(aliases: AliasMap, path: seq<string>, key: string, n: nat)
    requires Walk(aliases, path + [key]) && key in path
    ensures !Within(aliases, key, n)
  {
    var i :| 0 <= i < |path| && path[i] == key;
    var loop := (path + [key])[i..];
    forall j | 0 <= j < |loop| - 1
      ensures Edge(aliases, loop[j], loop[j + 1])
    {
      assert Edge(aliases, (path + [key])[i + j], (path + [key])[i + j + 1]);
    }
    CycleIsUnbounded(aliases, loop, n);
  }

  /** Resolution succeeds exactly when no walk from the address has more than 21
      addresses, every leaf is an enabled mailbox and there are at most 1000
      leaves; the result is then the depth-first flattening. */
  method ResolveAddress(address: string, aliases: AliasMap, users: map<string, User>) returns (r: Result)
    ensures r.Resolved? <==> Resolvable(aliases, users, address, MaxPath)
    ensures r.Resolved? ==> Flattens(users, Leaves(aliases, address, MaxPath), r.mailboxes)
  {
    var resolver := new Resolver(aliases, users);
    assert [] + [Lower(address)] == [Lower(address)];
    r := resolver.Resolve(address, []);
  }
}
