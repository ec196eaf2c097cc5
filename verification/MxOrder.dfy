/** Ordering of MX answers before delivery. */
module MxOrder {

  datatype MX = MX(host: string, pref: nat)

  ghost predicate Sorted(s: seq<MX>) {
    forall i, j :: 0 <= i < j < |s| ==> s[i].pref <= s[j].pref
  }

  /** The records of one preference, in their order. */
  ghost function OfPref(s: seq<MX>, p: nat): seq<MX> {
    if s == [] then [] else (if s[0].pref == p then [s[0]] else []) + OfPref(s[1..], p)
  }

  /** `b` has the records of `a`, records of equal preference in the same order. */
  ghost predicate SameWithinPref(a: seq<MX>, b: seq<MX>) {
    forall p: nat :: OfPref(a, p) == OfPref(b, p)
  }

  ghost function Insert(x: MX, s: seq<MX>): seq<MX> {
    if s == [] || x.pref <= s[0].pref then [x] + s else [s[0]] + Insert(x, s[1..])
  }

  /** The stable sort by preference. */
  ghost function StableSort(s: seq<MX>): seq<MX> {
    if s == [] then [] else Insert(s[0], StableSort(s[1..]))
  }

  lemma {:induction false} OfPrefAppend(a: seq<MX>, b: seq<MX>, p: nat)
    ensures OfPref(a + b, p) == OfPref(a, p) + OfPref(b, p)
  {
    if a == [] {
      assert a + b == b;
    } else {
      var rest := a[1..];
      assert (a + b)[0] == a[0] && (a + b)[1..] == rest + b;
      OfPrefAppend(rest, b, p);
      assert OfPref(a + b, p) == (if a[0].pref == p then [a[0]] else []) + (OfPref(rest, p) + OfPref(b, p));
    }
  }

  lemma {:induction false} OfPrefWitness(s: seq<MX>, p: nat)
    ensures OfPref(s, p) != [] <==> exists k :: 0 <= k < |s| && s[k].pref == p
  {
    if s != [] {
      OfPrefWitness(s[1..], p);
      assert forall k :: 0 < k < |s| ==> s[k] == s[1..][k - 1];
      if OfPref(s[1..], p) != [] {
        var k :| 0 <= k < |s[1..]| && s[1..][k].pref == p;
        assert s[k + 1].pref == p;
      }
    }
  }

  lemma {:induction false} SwapKeepsOrderWithinPref(s: seq<MX>, j: nat)
    requires j + 1 < |s| && s[j].pref != s[j + 1].pref
    ensures SameWithinPref(s, s[j := s[j + 1]][j + 1 := s[j]])
  {
    var t := s[j := s[j + 1]][j + 1 := s[j]];
    assert s == s[..j] + ([s[j], s[j + 1]] + s[j + 2..]);
    assert t == s[..j] + ([s[j + 1], s[j]] + s[j + 2..]);
    forall p: nat
      ensures OfPref(s, p) == OfPref(t, p)
    {
      OfPrefAppend(s[..j], [s[j], s[j + 1]] + s[j + 2..], p);
      OfPrefAppend(s[..j], [s[j + 1], s[j]] + s[j + 2..], p);
      OfPrefAppend([s[j], s[j + 1]], s[j + 2..], p);
      OfPrefAppend([s[j + 1], s[j]], s[j + 2..], p);
      assert [s[j], s[j + 1]][1..] == [s[j + 1]] && [s[j + 1], s[j]][1..] == [s[j]];
    }
  }

  lemma {:induction false} InsertSorted(x: MX, s: seq<MX>)
    requires Sorted(s)
    ensures Sorted(Insert(x, s))
    ensures forall k :: 0 <= k < |Insert(x, s)| ==> Insert(x, s)[k] == x || Insert(x, s)[k] in s
  {
    if s != [] && x.pref > s[0].pref { InsertSorted(x, s[1..]); }
  }

  lemma {:induction false} InsertSame(x: MX, s: seq<MX>, p: nat)
    ensures OfPref(Insert(x, s), p) == (if x.pref == p then [x] else []) + OfPref(s, p)
  {
    if s == [] || x.pref <= s[0].pref {
      assert ([x] + s)[1..] == s;
    } else {
      InsertSame(x, s[1..], p);
      assert ([s[0]] + Insert(x, s[1..]))[1..] == Insert(x, s[1..]);
    }
  }

  lemma {:induction false} StableSortKeeps(s: seq<MX>)
    ensures Sorted(StableSort(s)) && SameWithinPref(s, StableSort(s))
  {
    if s != [] {
      StableSortKeeps(s[1..]);
      InsertSorted(s[0], StableSort(s[1..]));
      forall p: nat
        ensures OfPref(s, p) == OfPref(StableSort(s), p)
      {
        InsertSame(s[0], StableSort(s[1..]), p);
        assert OfPref(s[1..], p) == OfPref(StableSort(s[1..]), p);
      }
    }
  }

  /** A stable sorted rearrangement is unique. */
  lemma {:induction false} StableSortUnique(a: seq<MX>, b: seq<MX>)
    requires Sorted(a) && Sorted(b) && SameWithinPref(a, b)
    ensures a == b
  {
    if a == [] || b == [] {
      if a != [] { OfPrefWitness(a, a[0].pref); }
      if b != [] { OfPrefWitness(b, b[0].pref); }
    } else {
      OfPrefWitness(a, a[0].pref);
      OfPrefWitness(b, b[0].pref);
      OfPrefWitness(a, b[0].pref);
      OfPrefWitness(b, a[0].pref);
      assert OfPref(a, a[0].pref) == OfPref(b, a[0].pref);
      assert OfPref(a, b[0].pref) == OfPref(b, b[0].pref);
      assert a[0].pref == b[0].pref;
      assert OfPref(a, a[0].pref)[0] == a[0] && OfPref(b, a[0].pref)[0] == b[0];
      forall p: nat
        ensures OfPref(a[1..], p) == OfPref(b[1..], p)
      {
        assert OfPref(a, p) == OfPref(b, p);
        assert OfPref(a[1..], p) == if a[0].pref == p then OfPref(a, p)[1..] else OfPref(a, p);
        assert OfPref(b[1..], p) == if b[0].pref == p then OfPref(b, p)[1..] else OfPref(b, p);
      }
      StableSortUnique(a[1..], b[1..]);
    }
  }

  lemma {:induction false} OfPrefMultiset(s: seq<MX>, x: MX)
    ensures multiset(s)[x] == multiset(OfPref(s, x.pref))[x]
  {
    if s != [] {
      assert s == [s[0]] + s[1..];
      OfPrefMultiset(s[1..], x);
    }
  }

  /** Keeping each preference class keeps every record. */
  lemma {:induction false} StableSortPermutes(s: seq<MX>)
    ensures multiset(StableSort(s)) == multiset(s) && |StableSort(s)| == |s|
  {
    StableSortKeeps(s);
    forall x: MX
      ensures multiset(s)[x] == multiset(StableSort(s))[x]
    {
      OfPrefMultiset(s, x);
      OfPrefMultiset(StableSort(s), x);
    }
    assert multiset(StableSort(s)) == multiset(s);
    assert |StableSort(s)| == |multiset(StableSort(s))| && |s| == |multiset(s)|;
  }

  method SortMXRecords(a: array<MX>)
    modifies a
    ensures a[..] == StableSort(old(a[..]))
  {
    var n := a.Length;
    var i := 0;
    while i < n - 1
      invariant 0 <= i <= n
      invariant SameWithinPref(old(a[..]), a[..])
      invariant forall u, v :: 0 <= u < v < n && n - i <= v ==> a[u].pref <= a[v].pref
    {
      var j := 0;
      while j < n - i - 1
        invariant 0 <= j <= n - i - 1
        invariant SameWithinPref(old(a[..]), a[..])
        invariant forall u, v :: 0 <= u < v < n && n - i <= v ==> a[u].pref <= a[v].pref
        invariant forall u :: 0 <= u <= j ==> a[u].pref <= a[j].pref
      {
        if a[j].pref > a[j + 1].pref {
          SwapKeepsOrderWithinPref(a[..], j);
          ghost var before := a[..];
          a[j], a[j + 1] := a[j + 1], a[j];
          assert a[..] == before[j := before[j + 1]][j + 1 := before[j]];
        }
        j := j + 1;
      }
      i := i + 1;
    }
    StableSortKeeps(old(a[..]));
    assert Sorted(a[..]);
    StableSortUnique(a[..], StableSort(old(a[..])));
  }
}
