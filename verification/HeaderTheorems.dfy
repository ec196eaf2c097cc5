/** Removal order and byte-exact bodies. */
module HeaderTheorems {
  import opened Text
  import opened Headers

  // ---------- removals do not depend on the map's order ----------

  /** The first `n` fields without the positions in `gone`. */
  function Kept(fields: seq<string>, gone: set<nat>, n: nat): (r: seq<string>)
    requires n <= |fields|
    ensures |r| <= n
  {
    if n == 0 then []
    else Kept(fields, gone, n - 1) + (if n - 1 in gone then [] else [fields[n - 1]])
  }

  function Chosen(fields: seq<string>, name: string, order: int): set<nat> {
    set i: nat | i < |fields| && Selected(fields, name, order, i)
  }

  function ChosenByAny(fields: seq<string>, remove: map<string, int>, names: set<string>): set<nat>
    requires names <= remove.Keys
  {
    set i: nat | i < |fields| && ChosenBySome(fields, remove, names, i)
  }

  predicate ChosenBySome(fields: seq<string>, remove: map<string, int>, names: set<string>, i: nat)
    requires names <= remove.Keys && i < |fields|
  {
    exists k :: k in names && Selected(fields, k, remove[k], i)
  }

  ghost predicate Untouched(fields: seq<string>, gone: set<nat>, name: string) {
    forall i: nat :: i < |fields| && i in gone ==> !Named(fields[i], name)
  }

  lemma {:induction false} KeptPrefix(fields: seq<string>, gone: set<nat>, n: nat, m: nat)
    requires n <= m <= |fields|
    ensures Kept(fields, gone, n) <= Kept(fields, gone, m)
  {
    if n < m { KeptPrefix(fields, gone, n, m - 1); }
  }

  lemma {:induction false} KeptAll(fields: seq<string>, n: nat)
    requires n <= |fields|
    ensures Kept(fields, {}, n) == fields[..n]
  {
    if n > 0 { KeptAll(fields, n - 1); }
  }

  lemma {:induction false} KeptCount(fields: seq<string>, gone: set<nat>, name: string, n: nat)
    requires n <= |fields| && Untouched(fields, gone, name)
    ensures |Kept(fields, gone, n)| <= |Kept(fields, gone, |fields|)|
    ensures NameCount(Kept(fields, gone, |fields|), name, |Kept(fields, gone, n)|) == NameCount(fields, name, n)
  {
    KeptPrefix(fields, gone, n, |fields|);
    if n > 0 {
      KeptCount(fields, gone, name, n - 1);
      var before := Kept(fields, gone, n - 1);
      if n - 1 !in gone {
        assert Kept(fields, gone, n)[|before|] == fields[n - 1];
      }
    }
  }

  /** A field that is still there is selected exactly when it was at first. */
  lemma {:induction false} SelectedInKept(fields: seq<string>, gone: set<nat>, name: string, order: int, n: nat)
    requires n < |fields| && n !in gone && Untouched(fields, gone, name)
    ensures var all, at := Kept(fields, gone, |fields|), |Kept(fields, gone, n)|;
            at < |all| && all[at] == fields[n] && (Selected(all, name, order, at) <==> Selected(fields, name, order, n))
  {
    KeptPrefix(fields, gone, n + 1, |fields|);
    assert Kept(fields, gone, n + 1)[|Kept(fields, gone, n)|] == fields[n];
    KeptCount(fields, gone, name, n);
    KeptCount(fields, gone, name, |fields|);
  }

  lemma {:induction false} RemoveFromKept(fields: seq<string>, gone: set<nat>, name: string, order: int, n: nat)
    requires n <= |fields| && Untouched(fields, gone, name)
    ensures |Kept(fields, gone, n)| <= |Kept(fields, gone, |fields|)|
    ensures Remove(Kept(fields, gone, |fields|), name, order, |Kept(fields, gone, n)|)
              == Kept(fields, gone + Chosen(fields, name, order), n)
  {
    KeptPrefix(fields, gone, n, |fields|);
    if n > 0 {
      RemoveFromKept(fields, gone, name, order, n - 1);
      if n - 1 !in gone {
        SelectedInKept(fields, gone, name, order, n - 1);
      }
    }
  }

  ghost predicate FoldDistinct(order: seq<string>) {
    forall i, j :: 0 <= i < j < |order| ==> !EqualFold(order[i], order[j])
  }

  function Members(order: seq<string>): set<string> {
    set k | k in order
  }

  lemma {:induction false} RemoveAllFromKept(
    fields: seq<string>, gone: set<nat>, remove: map<string, int>, order: seq<string>)
    requires Members(order) <= remove.Keys && FoldDistinct(order)
    requires forall k :: k in order ==> Untouched(fields, gone, k)
    ensures forall k :: k in order ==> k in remove
    ensures RemoveAll(Kept(fields, gone, |fields|), remove, order)
              == Kept(fields, gone + ChosenByAny(fields, remove, Members(order)), |fields|)
    decreases |order|
  {
    assert forall k :: k in order ==> k in Members(order);
    if order == [] {
      assert ChosenByAny(fields, remove, Members(order)) == {};
      assert gone + {} == gone;
    } else {
      var first, rest := order[0], order[1..];
      var chosen := Chosen(fields, first, remove[first]);
      RemoveFromKept(fields, gone, first, remove[first], |fields|);
      forall k | k in rest
        ensures Untouched(fields, gone + chosen, k)
      {
        var j :| 0 <= j < |rest| && rest[j] == k;
        assert order[j + 1] == k && !EqualFold(order[0], order[j + 1]);
        assert k in order;
        OtherName(fields, first, remove[first], k);
      }
      assert Members(rest) <= Members(order);
      RemoveAllFromKept(fields, gone + chosen, remove, rest);
      assert forall k :: k in order <==> k == first || k in rest;
      assert gone + chosen + ChosenByAny(fields, remove, Members(rest))
          == gone + ChosenByAny(fields, remove, Members(order));
    }
  }

  lemma OtherName(fields: seq<string>, a: string, order: int, b: string)
    requires !EqualFold(a, b)
    ensures Untouched(fields, Chosen(fields, a, order), b)
  {
  }

  /** Removals of names that differ by more than case give the same fields in
      whatever order the map yields them. */
  lemma {:induction false} RemovalOrderIrrelevant(
    fields: seq<string>, remove: map<string, int>, order: seq<string>, other: seq<string>)
    requires Enumerates(order, remove) && Enumerates(other, remove)
    requires FoldDistinct(order) && FoldDistinct(other)
    ensures RemoveAll(fields, remove, order) == RemoveAll(fields, remove, other)
  {
    KeptAll(fields, |fields|);
    assert fields[..|fields|] == fields;
    assert Members(order) == remove.Keys == Members(other);
    RemoveAllFromKept(fields, {}, remove, order);
    RemoveAllFromKept(fields, {}, remove, other);
  }

  /** Names equal up to case are the failing family: here the two orders differ. */
  lemma FoldedNamesDepend()
    ensures var fields := ["X:1", "X:2", "X:3"];
            && Remove(Remove(fields, "X", 1, 3), "x", 2, 2) == ["X:2"]
            && Remove(Remove(fields, "x", 2, 3), "X", 1, 2) == ["X:3"]
  {
    var fields := ["X:1", "X:2", "X:3"];
    NamedX("X:1"); NamedX("X:2"); NamedX("X:3");
    CountX(fields, "X", 1); CountX(fields, "X", 2); CountX(fields, "X", 3);
    CountX(fields, "x", 1); CountX(fields, "x", 2); CountX(fields, "x", 3);
    assert Remove(fields, "X", 1, 1) == [];
    assert Remove(fields, "X", 1, 2) == ["X:2"];
    assert Remove(fields, "X", 1, 3) == ["X:2", "X:3"];
    assert Remove(fields, "x", 2, 1) == ["X:1"];
    assert Remove(fields, "x", 2, 2) == ["X:1"];
    assert Remove(fields, "x", 2, 3) == ["X:1", "X:3"];
    CountX(["X:2", "X:3"], "x", 1); CountX(["X:2", "X:3"], "x", 2);
    CountX(["X:1", "X:3"], "X", 1); CountX(["X:1", "X:3"], "X", 2);
    assert Remove(["X:2", "X:3"], "x", 2, 1) == ["X:2"];
    assert Remove(["X:1", "X:3"], "X", 1, 1) == [];
  }

  lemma NamedX(field: string)
    requires |field| == 3 && field[0] == 'X' && field[1] == ':'
    ensures Named(field, "X") && Named(field, "x")
  {
    IndexChar(field, ':');
    assert At(field, ":", 1);
    assert Index(field, ":") == 1;
    assert field[..1] == "X";
    assert Lower("X") == Lower("x");
  }

  lemma {:induction false} CountX(fields: seq<string>, name: string, n: nat)
    requires n <= |fields| && (name == "X" || name == "x")
    requires forall f :: f in fields ==> |f| == 3 && f[0] == 'X' && f[1] == ':'
    ensures NameCount(fields, name, n) == n
  {
    if n > 0 {
      CountX(fields, name, n - 1);
      assert fields[n - 1] in fields;
      NamedX(fields[n - 1]);
    }
  }
}
