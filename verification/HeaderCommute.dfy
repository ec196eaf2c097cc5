/** When two removals of one name, spelled in two ways, can be exchanged. */
module HeaderCommute {
  import opened Text
  import opened Headers
  import opened HeaderTheorems

  // ---------- which of the fields of a name a removal takes ----------

  /** The ordinal a nonzero order counts to among `c` fields of the name. */
  function Target(order: int, c: nat): int {
    if order > 0 then order - 1 else c + order
  }

  /** One removal takes the field of ordinal `x` among `c`. */
  predicate Takes(order: int, c: nat, x: nat) {
    x < c && (order == 0 || x == Target(order, c))
  }

  /** The one at `i` is gone, and a second removal takes the one that was at `x`. */
  predicate TakesNext(i: nat, second: int, c: nat, x: nat)
    requires i < c
  {
    x != i && x < c && Takes(second, c - 1, if i < x then x - 1 else x)
  }

  /** Two removals, one after the other, take the field of ordinal `x` among `c`. */
  predicate TakeBoth(first: int, second: int, c: nat, x: nat) {
    var i := Target(first, c);
    if first == 0 then x < c
    else if 0 <= i < c then x == i || TakesNext(i, second, c, x)
    else Takes(second, c, x)
  }

  function ChosenByBoth(fields: seq<string>, name: string, first: int, second: int): set<nat> {
    var c := NameCount(fields, name, |fields|);
    set k: nat | k < |fields| && Named(fields[k], name) && TakeBoth(first, second, c, NameCount(fields, name, k))
  }

  lemma {:induction false} CountGrows(fields: seq<string>, name: string, n: nat, m: nat)
    requires n <= m <= |fields|
    ensures NameCount(fields, name, n) <= NameCount(fields, name, m)
  {
    if n < m { CountGrows(fields, name, n, m - 1); }
  }

  // ---------- removing from what is left ----------

  /** How many of the first `n` fields have the name and are still there. */
  function Left(fields: seq<string>, gone: set<nat>, name: string, n: nat): nat
    requires n <= |fields|
  {
    if n == 0 then 0
    else Left(fields, gone, name, n - 1) + (if Named(fields[n - 1], name) && n - 1 !in gone then 1 else 0)
  }

  lemma {:induction false} LeftIsCount(fields: seq<string>, gone: set<nat>, name: string, n: nat)
    requires n <= |fields|
    ensures |Kept(fields, gone, n)| <= |Kept(fields, gone, |fields|)|
    ensures NameCount(Kept(fields, gone, |fields|), name, |Kept(fields, gone, n)|) == Left(fields, gone, name, n)
  {
    KeptPrefix(fields, gone, n, |fields|);
    if n > 0 {
      LeftIsCount(fields, gone, name, n - 1);
      var before := Kept(fields, gone, n - 1);
      if n - 1 !in gone {
        assert Kept(fields, gone, n)[|before|] == fields[n - 1];
      }
    }
  }

  /** The positions a removal takes when those in `gone` are no longer there. */
  function ChosenLater(fields: seq<string>, gone: set<nat>, name: string, order: int): set<nat> {
    var c := Left(fields, gone, name, |fields|);
    set k: nat | k < |fields| && k !in gone && Named(fields[k], name) && Takes(order, c, Left(fields, gone, name, k))
  }

  lemma {:induction false} SelectedLater(fields: seq<string>, gone: set<nat>, name: string, order: int, n: nat)
    requires n < |fields| && n !in gone
    ensures var all, at := Kept(fields, gone, |fields|), |Kept(fields, gone, n)|;
            at < |all| && all[at] == fields[n]
            && (Selected(all, name, order, at) <==> n in ChosenLater(fields, gone, name, order))
  {
    var all, at := Kept(fields, gone, |fields|), |Kept(fields, gone, n)|;
    KeptPrefix(fields, gone, n + 1, |fields|);
    assert Kept(fields, gone, n + 1)[at] == fields[n];
    LeftIsCount(fields, gone, name, n);
    LeftIsCount(fields, gone, name, |fields|);
    if Named(fields[n], name) { CountGrows(all, name, at + 1, |all|); }
  }

  lemma {:induction false} RemoveOneMore(fields: seq<string>, gone: set<nat>, name: string, order: int, n: nat)
    requires n < |fields| && n !in gone
    ensures var all, at := Kept(fields, gone, |fields|), |Kept(fields, gone, n)|;
            at < |all| && Remove(all, name, order, at + 1)
              == Remove(all, name, order, at)
                 + (if n in ChosenLater(fields, gone, name, order) then [] else [fields[n]])
  {
    SelectedLater(fields, gone, name, order, n);
  }

  /** At position `k` the removal does to `all` what leaving out `both` does. */
  ghost predicate InStep(
    fields: seq<string>, gone: set<nat>, both: set<nat>, all: seq<string>, name: string, order: int, k: nat)
    requires k < |fields|
  {
    var at := |Kept(fields, gone, k)|;
    if k in gone then k in both
    else at < |all| && Remove(all, name, order, at + 1)
           == Remove(all, name, order, at) + (if k in both then [] else [fields[k]])
  }

  lemma {:induction false} RemoveUpTo(
    fields: seq<string>, gone: set<nat>, both: set<nat>, all: seq<string>, name: string, order: int, n: nat)
    requires n <= |fields| && forall k: nat :: k < |fields| ==> InStep(fields, gone, both, all, name, order, k)
    ensures |Kept(fields, gone, n)| <= |all|
    ensures Remove(all, name, order, |Kept(fields, gone, n)|) == Kept(fields, both, n)
  {
    if n > 0 {
      RemoveUpTo(fields, gone, both, all, name, order, n - 1);
      assert InStep(fields, gone, both, all, name, order, n - 1);
    }
  }

  lemma {:induction false} RemoveLater(fields: seq<string>, gone: set<nat>, name: string, order: int)
    ensures var all := Kept(fields, gone, |fields|);
            Remove(all, name, order, |all|)
              == Kept(fields, gone + ChosenLater(fields, gone, name, order), |fields|)
  {
    var all, both := Kept(fields, gone, |fields|), gone + ChosenLater(fields, gone, name, order);
    forall k: nat | k < |fields|
      ensures InStep(fields, gone, both, all, name, order, k)
    {
      if k !in gone { RemoveOneMore(fields, gone, name, order, k); }
    }
    RemoveUpTo(fields, gone, both, all, name, order, |fields|);
  }

  /** Taking one field out moves the later ones up by one. */
  lemma {:induction false} LeftWithoutOne(fields: seq<string>, name: string, order: int, n: nat)
    requires n <= |fields| && order != 0
    ensures var i, c := Target(order, NameCount(fields, name, |fields|)), NameCount(fields, name, n);
            Left(fields, Chosen(fields, name, order), name, n) == if 0 <= i < c then c - 1 else c
  {
    if n > 0 { LeftWithoutOne(fields, name, order, n - 1); }
  }

  lemma {:induction false} LeftWithoutAll(fields: seq<string>, name: string, n: nat)
    requires n <= |fields|
    ensures Left(fields, Chosen(fields, name, 0), name, n) == 0
  {
    if n > 0 { LeftWithoutAll(fields, name, n - 1); }
  }

  lemma {:induction false} LeftWithoutNone(fields: seq<string>, name: string, n: nat)
    requires n <= |fields|
    ensures Left(fields, {}, name, n) == NameCount(fields, name, n)
  {
    if n > 0 { LeftWithoutNone(fields, name, n - 1); }
  }

  lemma {:induction false} SameName(fields: seq<string>, a: string, b: string, n: nat)
    requires EqualFold(a, b) && n <= |fields|
    ensures NameCount(fields, a, n) == NameCount(fields, b, n)
    ensures forall order, k :: 0 <= k < n ==> (Selected(fields, a, order, k) <==> Selected(fields, b, order, k))
  {
    forall k: nat | k <= |fields|
      ensures NameCount(fields, a, k) == NameCount(fields, b, k)
    {
      SameCount(fields, a, b, k);
    }
  }

  lemma {:induction false} SameCount(fields: seq<string>, a: string, b: string, n: nat)
    requires EqualFold(a, b) && n <= |fields|
    ensures NameCount(fields, a, n) == NameCount(fields, b, n)
  {
    if n > 0 { SameCount(fields, a, b, n - 1); }
  }

  lemma {:induction false} SameRemoval(fields: seq<string>, a: string, b: string, order: int, n: nat)
    requires EqualFold(a, b) && n <= |fields|
    ensures Remove(fields, a, order, n) == Remove(fields, b, order, n)
  {
    SameName(fields, a, b, |fields|);
    if n > 0 { SameRemoval(fields, a, b, order, n - 1); }
  }

  /** What both removals together take. */
  lemma {:induction false} RemovedByBoth(fields: seq<string>, name: string, first: int, second: int)
    ensures var once := Remove(fields, name, first, |fields|);
            Remove(once, name, second, |once|) == Kept(fields, ChosenByBoth(fields, name, first, second), |fields|)
  {
    KeptAll(fields, |fields|);
    assert fields[..|fields|] == fields;
    RemoveLater(fields, {}, name, first);
    LaterFromNone(fields, name, first);
    var gone := Chosen(fields, name, first);
    assert {} + gone == gone;
    RemoveLater(fields, gone, name, second);
    BothChosen(fields, name, first, second);
  }

  lemma {:induction false} LaterFromNone(fields: seq<string>, name: string, order: int)
    ensures ChosenLater(fields, {}, name, order) == Chosen(fields, name, order)
  {
    LeftWithoutNone(fields, name, |fields|);
    forall k: nat | k < |fields|
      ensures Left(fields, {}, name, k) == NameCount(fields, name, k)
      ensures Named(fields[k], name) ==> NameCount(fields, name, k) < NameCount(fields, name, |fields|)
    {
      LeftWithoutNone(fields, name, k);
      CountGrows(fields, name, k + 1, |fields|);
    }
  }

  lemma {:induction false} BothChosen(fields: seq<string>, name: string, first: int, second: int)
    ensures var gone := Chosen(fields, name, first);
            gone + ChosenLater(fields, gone, name, second) == ChosenByBoth(fields, name, first, second)
  {
    var gone := Chosen(fields, name, first);
    forall k: nat | k < |fields|
      ensures k in gone + ChosenLater(fields, gone, name, second)
              <==> k in ChosenByBoth(fields, name, first, second)
    {
      BothChoose(fields, name, first, second, k);
    }
  }

  lemma {:induction false} BothChoose(fields: seq<string>, name: string, first: int, second: int, k: nat)
    requires k < |fields|
    ensures var gone := Chosen(fields, name, first);
            k in gone || k in ChosenLater(fields, gone, name, second)
            <==> k in ChosenByBoth(fields, name, first, second)
  {
    CountGrows(fields, name, k + 1, |fields|);
    if first == 0 {
      LeftWithoutAll(fields, name, |fields|);
    } else {
      LeftWithoutOne(fields, name, first, |fields|);
      LeftWithoutOne(fields, name, first, k);
    }
  }

  // ---------- the condition ----------

  function Abs(x: int): nat {
    if x < 0 then -x else x
  }

  /** Whether removals with these orders can be exchanged when `c` fields have the
      name: one takes all, both are alike, one of them finds nothing from the same
      end, or they count from opposite ends and do not reach each other. */
  predicate Commute(o: int, p: int, c: nat) {
    || o == 0 || p == 0 || o == p
    || (((o > 0) == (p > 0)) && (c < Abs(o) || c < Abs(p)))
    || (((o > 0) != (p > 0)) && (c < Abs(o) || c < Abs(p) || Abs(o) + Abs(p) <= c || c == 1))
  }

  predicate SameOrdinals(o: int, p: int, c: nat) {
    forall x: nat :: x < c ==> (TakeBoth(o, p, c, x) <==> TakeBoth(p, o, c, x))
  }

  lemma Differ(o: int, p: int, c: nat, x: nat)
    requires x < c && TakeBoth(o, p, c, x) != TakeBoth(p, o, c, x)
    ensures !SameOrdinals(o, p, c)
  {
  }

  lemma CommuteIsSameOrdinals(o: int, p: int, c: nat)
    ensures Commute(o, p, c) <==> SameOrdinals(o, p, c)
  {
    if !Commute(o, p, c) {
      var i, j := Target(o, c), Target(p, c);
      if (o > 0) == (p > 0) {
        Differ(o, p, c, if Abs(o) < Abs(p) then j else i);
      } else if i != j {
        Differ(o, p, c, if o > 0 then j else i);
      } else {
        Differ(o, p, c, if i > 0 then i - 1 else i + 1);
      }
    }
  }

  /** For one name in two spellings: if the condition holds the two orders of
      removal give the same fields. */
  lemma {:induction false} CommutingRemovals(fields: seq<string>, a: string, b: string, o: int, p: int)
    requires EqualFold(a, b) && Commute(o, p, NameCount(fields, a, |fields|))
    ensures var x, y := Remove(fields, a, o, |fields|), Remove(fields, b, p, |fields|);
            Remove(x, b, p, |x|) == Remove(y, a, o, |y|)
  {
    var x, y := Remove(fields, a, o, |fields|), Remove(fields, b, p, |fields|);
    SameRemoval(fields, a, b, p, |fields|);
    SameRemoval(x, a, b, p, |x|);
    RemovedByBoth(fields, a, o, p);
    RemovedByBoth(fields, a, p, o);
    CommuteIsSameOrdinals(o, p, NameCount(fields, a, |fields|));
    SameChosen(fields, a, o, p);
  }

  lemma {:induction false} SameChosen(fields: seq<string>, name: string, o: int, p: int)
    requires SameOrdinals(o, p, NameCount(fields, name, |fields|))
    ensures ChosenByBoth(fields, name, o, p) == ChosenByBoth(fields, name, p, o)
  {
    forall k: nat | k < |fields|
      ensures k in ChosenByBoth(fields, name, o, p) <==> k in ChosenByBoth(fields, name, p, o)
    {
      CountGrows(fields, name, k + 1, |fields|);
    }
  }

  // ---------- and only then ----------

  ghost predicate NamedAreDistinct(fields: seq<string>, name: string) {
    forall i, j :: 0 <= i < j < |fields| && Named(fields[i], name) ==> fields[i] != fields[j]
  }

  lemma {:induction false} InKept(fields: seq<string>, gone: set<nat>, n: nat, f: string)
    requires n <= |fields|
    ensures f in Kept(fields, gone, n) <==> exists k :: 0 <= k < n && k !in gone && fields[k] == f
  {
    if n > 0 { InKept(fields, gone, n - 1, f); }
  }

  lemma {:induction false} AtOrdinal(fields: seq<string>, name: string, x: nat, n: nat) returns (k: nat)
    requires n <= |fields| && x < NameCount(fields, name, n)
    ensures k < n && Named(fields[k], name) && NameCount(fields, name, k) == x
  {
    if Named(fields[n - 1], name) && NameCount(fields, name, n - 1) == x {
      k := n - 1;
    } else {
      k := AtOrdinal(fields, name, x, n - 1);
    }
  }

  lemma {:induction false} OrdinalMissing(fields: seq<string>, name: string, o: int, p: int, x: nat)
    requires NamedAreDistinct(fields, name) && x < NameCount(fields, name, |fields|)
    requires var c := NameCount(fields, name, |fields|); TakeBoth(o, p, c, x) && !TakeBoth(p, o, c, x)
    ensures Kept(fields, ChosenByBoth(fields, name, o, p), |fields|)
         != Kept(fields, ChosenByBoth(fields, name, p, o), |fields|)
  {
    var k := AtOrdinal(fields, name, x, |fields|);
    InKept(fields, ChosenByBoth(fields, name, o, p), |fields|, fields[k]);
    InKept(fields, ChosenByBoth(fields, name, p, o), |fields|, fields[k]);
    assert forall l :: 0 <= l < |fields| && fields[l] == fields[k] ==> l == k;
    assert k in ChosenByBoth(fields, name, o, p) && k !in ChosenByBoth(fields, name, p, o);
  }

  /** When the fields of the name can be told apart, the condition is exact. */
  lemma {:induction false} CommuteExactlyWhen(fields: seq<string>, a: string, b: string, o: int, p: int)
    requires EqualFold(a, b) && NamedAreDistinct(fields, a)
    ensures var x, y := Remove(fields, a, o, |fields|), Remove(fields, b, p, |fields|);
            Remove(x, b, p, |x|) == Remove(y, a, o, |y|) <==> Commute(o, p, NameCount(fields, a, |fields|))
  {
    var c := NameCount(fields, a, |fields|);
    if Commute(o, p, c) {
      CommutingRemovals(fields, a, b, o, p);
    } else {
      var x, y := Remove(fields, a, o, |fields|), Remove(fields, b, p, |fields|);
      SameRemoval(fields, a, b, p, |fields|);
      SameRemoval(x, a, b, p, |x|);
      RemovedByBoth(fields, a, o, p);
      RemovedByBoth(fields, a, p, o);
      CommuteIsSameOrdinals(o, p, c);
      var z: nat :| z < c && TakeBoth(o, p, c, z) != TakeBoth(p, o, c, z);
      if TakeBoth(o, p, c, z) {
        OrdinalMissing(fields, a, o, p, z);
      } else {
        OrdinalMissing(fields, a, p, o, z);
      }
    }
  }
}
