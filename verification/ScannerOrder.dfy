/** The additions of the scanner against an independent description: the leaves of
    its reply, in order, under the names they stand for. */
module ScannerOrder {
  import opened Text
  import opened Choices
  import opened Headers
  import opened Scanner

  /** The entry reached by following list positions. */
  function LeafAt(v: Value, path: seq<nat>): Option<Value>
    decreases |path|
  {
    match v
    case List(items) =>
      if path == [] || path[0] >= |items| then None else LeafAt(items[path[0]], path[1..])
    case _ => if path == [] then Some(v) else None
  }

  predicate Good(leaf: Value) {
    match leaf
    case Str(_) => true
    case Null => true
    case Item(value, order) => value != "" && order >= 0
    case _ => false
  }

  function TextOf(leaf: Value): string {
    match leaf
    case Str(s) => s
    case Item(value, _) => value
    case _ => ""
  }

  /** Where the header is to be inserted: at the top unless the entry says so. */
  function PlaceOf(leaf: Value): int {
    if leaf.Item? then leaf.order else 0
  }

  // ---------- the entries of one name ----------

  predicate Says(h: Header, leaf: Value) {
    Good(leaf) && h.value == TextOf(leaf) && h.order == PlaceOf(leaf)
  }

  /** The paths lead to the entries that the headers say, and are all there are. */
  ghost predicate Lead(v: Value, paths: seq<seq<nat>>, headers: seq<Header>) {
    && |paths| == |headers| && InOrder(paths)
    && (forall i :: 0 <= i < |paths| ==> LeafAt(v, paths[i]).Some? && Says(headers[i], LeafAt(v, paths[i]).value))
    && (forall p :: LeafAt(v, p).Some? ==> p in paths)
  }

  lemma {:induction false} FlattenInOrder(v: Value) returns (paths: seq<seq<nat>>)
    requires Flatten(v).Some?
    ensures Lead(v, paths, Flatten(v).value)
    decreases v, 1
  {
    match v {
      case List(items) => paths := FlattenAllInOrder(items);
      case _ => paths := [[]];
    }
  }

  lemma {:induction false} FlattenAllInOrder(items: seq<Value>) returns (paths: seq<seq<nat>>)
    requires FlattenAll(items).Some?
    ensures Lead(List(items), paths, FlattenAll(items).value)
    ensures forall i :: 0 <= i < |paths| ==> paths[i] != []
    decreases items, 0
  {
    if items == [] {
      paths := [];
    } else {
      var first := FlattenInOrder(items[0]);
      var rest := FlattenAllInOrder(items[1..]);
      paths := Under(0, first) + Shifted(rest);
      OneBranchBefore(first, rest);
      ListLeads(items, first, Flatten(items[0]).value, rest, FlattenAll(items[1..]).value);
    }
  }

  lemma {:induction false} ListLeads(
    items: seq<Value>, first: seq<seq<nat>>, head: seq<Header>, rest: seq<seq<nat>>, tail: seq<Header>)
    requires items != [] && Lead(items[0], first, head) && Lead(List(items[1..]), rest, tail)
    requires (forall i :: 0 <= i < |rest| ==> rest[i] != []) && InOrder(Under(0, first) + Shifted(rest))
    ensures Lead(List(items), Under(0, first) + Shifted(rest), head + tail)
    ensures forall i :: 0 <= i < |first| + |rest| ==> (Under(0, first) + Shifted(rest))[i] != []
  {
    var paths, all, n := Under(0, first) + Shifted(rest), head + tail, |first|;
    forall i | 0 <= i < |paths|
      ensures LeafAt(List(items), paths[i]).Some? && Says(all[i], LeafAt(List(items), paths[i]).value)
    {
      if i < n {
        FirstEntry(items, first[i]);
      } else {
        NextEntry(items, rest[i - n]);
      }
    }
    forall p | LeafAt(List(items), p).Some?
      ensures p in paths
    {
      ListComplete(items, first, head, rest, tail, p);
    }
  }

  lemma {:induction false} FirstEntry(items: seq<Value>, path: seq<nat>)
    requires items != []
    ensures LeafAt(List(items), [0] + path) == LeafAt(items[0], path)
  {
    assert ([0] + path)[1..] == path;
  }

  lemma {:induction false} NextEntry(items: seq<Value>, path: seq<nat>)
    requires items != [] && path != []
    ensures LeafAt(List(items), [path[0] + 1] + path[1..]) == LeafAt(List(items[1..]), path)
  {
    assert ([path[0] + 1] + path[1..])[1..] == path[1..];
  }

  lemma {:induction false} ListComplete(
    items: seq<Value>, first: seq<seq<nat>>, head: seq<Header>, rest: seq<seq<nat>>, tail: seq<Header>, p: seq<nat>)
    requires items != [] && Lead(items[0], first, head) && Lead(List(items[1..]), rest, tail)
    requires (forall i :: 0 <= i < |rest| ==> rest[i] != []) && LeafAt(List(items), p).Some?
    ensures p in Under(0, first) + Shifted(rest)
  {
    if p[0] == 0 {
      assert p == [0] + p[1..];
      FirstEntry(items, p[1..]);
      var k :| 0 <= k < |first| && first[k] == p[1..];
      assert Under(0, first)[k] == p;
    } else {
      var q := [p[0] - 1] + p[1..];
      assert q[1..] == p[1..] && p == [q[0] + 1] + q[1..];
      NextEntry(items, q);
      var k :| 0 <= k < |rest| && rest[k] == q;
      assert Shifted(rest)[k] == p;
    }
  }

  /** The entries are refused only for a bad one among them. */
  lemma {:induction false} RefusedHasCause(v: Value) returns (path: seq<nat>)
    requires Flatten(v).None?
    ensures LeafAt(v, path).Some? && !Good(LeafAt(v, path).value)
    decreases v, 1
  {
    match v {
      case List(items) => path := RefusedListHasCause(items);
      case _ => path := [];
    }
  }

  lemma {:induction false} RefusedListHasCause(items: seq<Value>) returns (path: seq<nat>)
    requires FlattenAll(items).None?
    ensures LeafAt(List(items), path).Some? && !Good(LeafAt(List(items), path).value)
    decreases items, 0
  {
    if Flatten(items[0]).None? {
      var p := RefusedHasCause(items[0]);
      path := [0] + p;
      assert path[1..] == p;
    } else {
      var p := RefusedListHasCause(items[1..]);
      path := [p[0] + 1] + p[1..];
      assert path[1..] == p[1..];
    }
  }

  // ---------- line ends ----------

  lemma {:induction false} NoBareReturn(n: string)
    requires Folded(n)
    ensures '\r' !in n
  {
    forall c | c in n
      ensures c != '\r'
    {
      var k :| 0 <= k < |n| && n[k] == c;
      assert FoldedAt(n, k);
    }
  }

  /** Writing a text with CRLF changes nothing but its line ends. */
  lemma {:induction false} ExpandKeepsText(n: string)
    requires '\r' !in n
    ensures Normalize(Expand(n)) == n
  {
    if n != "" {
      var c, rest := n[0], n[1..];
      assert n == [c] + rest;
      ExpandKeepsText(rest);
      if c == '\n' {
        ReplaceMatch("\n", rest, "\r\n");
        ReplaceMatch("\r\n", Expand(rest), "\n");
      } else {
        ReplaceSkip(c, rest, "\n", "\r\n");
        ReplaceSkip(c, Expand(rest), "\r\n", "\n");
      }
    }
  }

  /** A value on one line is inserted as it is. */
  lemma {:induction false} OneLineIsKept(s: string)
    requires '\r' !in s && '\n' !in s
    ensures Expand(Normalize(s)) == s
  {
    NothingToReplace(s, "\r\n", "\n");
    NothingToReplace(s, "\n", "\r\n");
  }

  // ---------- all names ----------

  lemma {:induction false} CheckedMeaning(name: string, values: seq<Header>, n: nat)
    requires n <= |values|
    ensures CheckedValues(name, values, n).Some? <==> forall i :: 0 <= i < n ==> Folded(Normalize(values[i].value))
    ensures CheckedValues(name, values, n).Some? ==>
              var r := CheckedValues(name, values, n).value;
              |r| == n && forall i :: 0 <= i < n ==>
                r[i] == Header(name, Expand(Normalize(values[i].value)), values[i].order)
  {
    if n > 0 { CheckedMeaning(name, values, n - 1); }
  }

  /** The header inserts the entry under the name; only its line ends may differ. */
  predicate Inserts(h: Header, name: string, leaf: Value) {
    Good(leaf) && h.name == name && h.order == PlaceOf(leaf) && Normalize(h.value) == Normalize(TextOf(leaf))
  }

  /** The entry a path leads to, starting with the number of a name. */
  function EntryAt(keys: seq<string>, additions: map<string, Value>, n: nat, path: seq<nat>): Option<Value>
    requires n <= |keys| && forall k :: k in keys ==> k in additions
  {
    if path == [] || path[0] >= n then None
    else assert keys[path[0]] in keys; LeafAt(additions[keys[path[0]]], path[1..])
  }

  ghost predicate LeadAll(
    keys: seq<string>, additions: map<string, Value>, n: nat, paths: seq<seq<nat>>, headers: seq<Header>)
    requires n <= |keys| && forall k :: k in keys ==> k in additions
  {
    && |paths| == |headers| && InOrder(paths)
    && (forall i :: 0 <= i < |paths| ==>
          EntryAt(keys, additions, n, paths[i]).Some? && paths[i] != [] && paths[i][0] < n
          && Inserts(headers[i], keys[paths[i][0]], EntryAt(keys, additions, n, paths[i]).value))
    && (forall p :: EntryAt(keys, additions, n, p).Some? ==> p in paths)
  }

  /** What is handed on: one header for each entry of the reply, in the order of the
      names and of the entries, at the place and with the text the entry gives. */
  lemma {:induction false} AdditionsInOrder(keys: seq<string>, additions: map<string, Value>, n: nat)
    returns (paths: seq<seq<nat>>)
    requires n <= |keys| && (forall k :: k in keys ==> k in additions) && Additions(keys, additions, n).Some?
    ensures LeadAll(keys, additions, n, paths, Additions(keys, additions, n).value)
  {
    if n == 0 {
      paths := [];
    } else {
      var key := keys[n - 1];
      assert key in keys;
      var before := AdditionsInOrder(keys, additions, n - 1);
      var last := FlattenInOrder(additions[key]);
      var values := Flatten(additions[key]).value;
      CheckedMeaning(key, values, |values|);
      NamedLeads(key, additions[key], last, values);
      paths := before + Under(n - 1, last);
      OneMoreBranch(before, n - 1, last);
      OneMoreName(keys, additions, n - 1, before, Additions(keys, additions, n - 1).value,
                  last, CheckedValues(key, values, |values|).value);
    }
  }

  ghost predicate LeadNamed(v: Value, name: string, paths: seq<seq<nat>>, headers: seq<Header>) {
    && |paths| == |headers|
    && (forall i :: 0 <= i < |paths| ==>
          LeafAt(v, paths[i]).Some? && Inserts(headers[i], name, LeafAt(v, paths[i]).value))
    && (forall p :: LeafAt(v, p).Some? ==> p in paths)
  }

  lemma {:induction false} NamedLeads(name: string, v: Value, paths: seq<seq<nat>>, values: seq<Header>)
    requires Lead(v, paths, values) && CheckedValues(name, values, |values|).Some?
    ensures LeadNamed(v, name, paths, CheckedValues(name, values, |values|).value)
  {
    CheckedMeaning(name, values, |values|);
    var r := CheckedValues(name, values, |values|).value;
    forall i | 0 <= i < |paths|
      ensures Inserts(r[i], name, LeafAt(v, paths[i]).value)
    {
      var normal := Normalize(values[i].value);
      NoBareReturn(normal);
      ExpandKeepsText(normal);
    }
  }

  lemma {:induction false} OneMoreName(
    keys: seq<string>, additions: map<string, Value>, n: nat, before: seq<seq<nat>>, headers: seq<Header>,
    last: seq<seq<nat>>, more: seq<Header>)
    requires n < |keys| && (forall k :: k in keys ==> k in additions)
    requires LeadAll(keys, additions, n, before, headers) && LeadNamed(additions[keys[n]], keys[n], last, more)
    requires InOrder(before + Under(n, last))
    ensures LeadAll(keys, additions, n + 1, before + Under(n, last), headers + more)
  {
    var paths, all := before + Under(n, last), headers + more;
    forall i | 0 <= i < |paths|
      ensures paths[i] != [] && paths[i][0] <= n && EntryAt(keys, additions, n + 1, paths[i]).Some?
      ensures Inserts(all[i], keys[paths[i][0]], EntryAt(keys, additions, n + 1, paths[i]).value)
    {
      if i < |before| {
        assert EntryAt(keys, additions, n, before[i]).Some?;
      } else {
        assert ([n] + last[i - |before|])[1..] == last[i - |before|];
      }
    }
    forall p | EntryAt(keys, additions, n + 1, p).Some?
      ensures p in paths
    {
      if p[0] < n {
        assert EntryAt(keys, additions, n, p).Some?;
      } else {
        var k :| 0 <= k < |last| && last[k] == p[1..];
        assert paths[|before| + k] == [n] + last[k] == p;
      }
    }
  }

  /** The reply is handed on exactly when every name is well formed, every entry is
      good, and every line break in an entry is a fold. */
  lemma {:induction false} HandedOnExactly(keys: seq<string>, additions: map<string, Value>, n: nat)
    requires n <= |keys| && forall k :: k in keys ==> k in additions
    ensures Additions(keys, additions, n).Some? <==> forall i :: 0 <= i < n ==> NameAccepted(keys, additions, i)
  {
    if n > 0 {
      HandedOnExactly(keys, additions, n - 1);
      OneNameExactly(keys, additions, n - 1);
    }
  }

  ghost predicate EntriesAccepted(v: Value) {
    forall p :: LeafAt(v, p).Some? ==> Good(LeafAt(v, p).value) && Folded(Normalize(TextOf(LeafAt(v, p).value)))
  }

  ghost predicate NameAccepted(keys: seq<string>, additions: map<string, Value>, i: nat)
    requires i < |keys| && forall k :: k in keys ==> k in additions
  {
    assert keys[i] in keys;
    keys[i] != "" && !ContainsAny(keys[i], ": \t\r\n") && EntriesAccepted(additions[keys[i]])
  }

  lemma {:induction false} OneNameExactly(keys: seq<string>, additions: map<string, Value>, i: nat)
    requires i < |keys| && forall k :: k in keys ==> k in additions
    ensures keys[i] in keys
    ensures var v := Flatten(additions[keys[i]]);
            NameAccepted(keys, additions, i) <==>
              NameOk(keys[i]) && v.Some? && CheckedValues(keys[i], v.value, |v.value|).Some?
  {
    var key := keys[i];
    assert key in keys;
    EntriesExactly(key, additions[key]);
  }

  lemma {:induction false} EntriesExactly(name: string, v: Value)
    ensures EntriesAccepted(v) <==>
              Flatten(v).Some? && CheckedValues(name, Flatten(v).value, |Flatten(v).value|).Some?
  {
    if Flatten(v).None? {
      var p := RefusedHasCause(v);
      assert LeafAt(v, p).Some?;
    } else {
      var values := Flatten(v).value;
      var paths := FlattenInOrder(v);
      CheckedMeaning(name, values, |values|);
      if EntriesAccepted(v) {
        forall i | 0 <= i < |values|
          ensures Folded(Normalize(values[i].value))
        {
          assert LeafAt(v, paths[i]).Some?;
        }
      }
      if CheckedValues(name, values, |values|).Some? {
        forall p | LeafAt(v, p).Some?
          ensures Good(LeafAt(v, p).value) && Folded(Normalize(TextOf(LeafAt(v, p).value)))
        {
          var i :| 0 <= i < |paths| && paths[i] == p;
          assert Says(values[i], LeafAt(v, p).value);
        }
      }
    }
  }
}
