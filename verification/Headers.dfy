/** Header rewriting: unfold the header block, delete, insert, join. */
module Headers {
  import opened Text

  datatype Header = Header(name: string, value: string, order: int)

  datatype Verdict = Verdict(remove: map<string, int>, add: seq<Header>)

  const Crlf := "\r\n"
  const Blank := "\r\n\r\n"

  // ---------- fields ----------

  predicate Continuation(line: string) {
    HasPrefix(line, " ") || HasPrefix(line, "\t")
  }

  /** The fields made of the first `n` lines, folded lines kept with their field. */
  function Unfold(lines: seq<string>, n: nat, eol: string): seq<string>
    requires n <= |lines|
  {
    if n == 0 then []
    else
      var fields := Unfold(lines, n - 1, eol);
      if fields != [] && Continuation(lines[n - 1])
      then fields[..|fields| - 1] + [fields[|fields| - 1] + eol + lines[n - 1]]
      else fields + [lines[n - 1]]
  }

  function Fields(block: string, eol: string): seq<string>
    requires eol != ""
  {
    var lines := Split(block, eol);
    Unfold(lines, |lines|, eol)
  }

  method BuildFields(block: string, eol: string) returns (fields: seq<string>)
    requires eol != ""
    ensures fields == Fields(block, eol)
  {
    var lines := Split(block, eol);
    fields := [];
    for i := 0 to |lines|
      invariant fields == Unfold(lines, i, eol)
    {
      var line := lines[i];
      if |fields| > 0 && (HasPrefix(line, " ") || HasPrefix(line, "\t")) {
        fields := fields[..|fields| - 1] + [fields[|fields| - 1] + eol + line];
      } else {
        fields := fields + [line];
      }
    }
  }

  // ---------- removal ----------

  /** The field's name is `name`, ignoring case. */
  predicate Named(field: string, name: string) {
    var i := Index(field, ":");
    i >= 0 && EqualFold(field[..i], name)
  }

  /** How many of the first `n` fields have that name. */
  function NameCount(fields: seq<string>, name: string, n: nat): (r: nat)
    requires n <= |fields|
    ensures r <= n
  {
    if n == 0 then 0 else NameCount(fields, name, n - 1) + (if Named(fields[n - 1], name) then 1 else 0)
  }

  /** 0 removes every field of the name, a positive number counts from the
      first, a negative one from the last. */
  predicate Selected(fields: seq<string>, name: string, order: int, i: nat)
    requires i < |fields|
  {
    Named(fields[i], name) &&
    (order == 0
     || NameCount(fields, name, i) == (if order < 0 then NameCount(fields, name, |fields|) + order else order - 1))
  }

  function Remove(fields: seq<string>, name: string, order: int, n: nat): seq<string>
    requires n <= |fields|
  {
    if n == 0 then []
    else Remove(fields, name, order, n - 1) + (if Selected(fields, name, order, n - 1) then [] else [fields[n - 1]])
  }

  function RemoveAll(fields: seq<string>, remove: map<string, int>, order: seq<string>): seq<string>
    requires forall k :: k in order ==> k in remove
    decreases |order|
  {
    if order == [] then fields
    else
      var first := order[0];
      assert first in order;
      RemoveAll(Remove(fields, first, remove[first], |fields|), remove, order[1..])
  }

  /** `matches` lists the positions below `n` whose field has the name. */
  ghost predicate IsMatches(matches: seq<nat>, fields: seq<string>, name: string, n: nat)
    requires n <= |fields|
  {
    && |matches| == NameCount(fields, name, n)
    && (forall m :: 0 <= m < |matches| ==>
          matches[m] < n && Named(fields[matches[m]], name) && NameCount(fields, name, matches[m]) == m)
    && (forall k :: 0 <= k < n && Named(fields[k], name) ==>
          NameCount(fields, name, k) < |matches| && matches[NameCount(fields, name, k)] == k)
  }

  method FindMatches(fields: seq<string>, name: string) returns (matches: seq<nat>)
    ensures IsMatches(matches, fields, name, |fields|)
  {
    matches := [];
    for i := 0 to |fields|
      invariant IsMatches(matches, fields, name, i)
    {
      var colon := Index(fields[i], ":");
      MatchesNext(matches, fields, name, i);
      if colon >= 0 && EqualFold(fields[i][..colon], name) {
        matches := matches + [i];
      }
    }
  }

  lemma MatchesNext(matches: seq<nat>, fields: seq<string>, name: string, i: nat)
    requires i < |fields| && IsMatches(matches, fields, name, i)
    ensures IsMatches(if Named(fields[i], name) then matches + [i] else matches, fields, name, i + 1)
  {
  }

  method ChooseRemoved(matches: seq<nat>, order: int) returns (removed: set<nat>)
    ensures forall k :: k in removed <==>
              exists m :: 0 <= m < |matches| && matches[m] == k && Wanted(|matches|, order, m)
  {
    removed := {};
    if order == 0 {
      for m := 0 to |matches|
        invariant forall k :: k in removed <==> exists l :: 0 <= l < m && matches[l] == k
      {
        removed := removed + {matches[m]};
      }
    } else {
      var idx := order - 1;
      if order < 0 {
        idx := |matches| + order;
      }
      if 0 <= idx < |matches| {
        removed := {matches[idx]};
      }
    }
  }

  /** The `m`-th of `total` matches is the one, or one of those, to remove. */
  predicate Wanted(total: nat, order: int, m: nat) {
    order == 0 || m == (if order < 0 then total + order else order - 1)
  }

  lemma SelectedMeansWanted(fields: seq<string>, name: string, order: int, matches: seq<nat>, k: nat)
    requires IsMatches(matches, fields, name, |fields|) && k < |fields|
    ensures Selected(fields, name, order, k) <==>
              exists m :: 0 <= m < |matches| && matches[m] == k && Wanted(|matches|, order, m)
  {
    if Selected(fields, name, order, k) {
      var m := NameCount(fields, name, k);
      assert matches[m] == k && Wanted(|matches|, order, m);
    }
  }

  method RemoveFields(fields: seq<string>, name: string, order: int) returns (kept: seq<string>)
    ensures kept == Remove(fields, name, order, |fields|)
  {
    var matches := FindMatches(fields, name);
    var removed := ChooseRemoved(matches, order);
    kept := [];
    for i := 0 to |fields|
      invariant kept == Remove(fields, name, order, i)
    {
      SelectedMeansWanted(fields, name, order, matches, i);
      if i !in removed {
        kept := kept + [fields[i]];
      }
    }
  }

  // ---------- insertion ----------

  function Render(h: Header): string {
    h.name + ": " + h.value
  }

  function InsertAt(fields: seq<string>, h: Header): seq<string>
    requires h.order >= 0
  {
    var at := if h.order > |fields| then |fields| else h.order;
    fields[..at] + [Render(h)] + fields[at..]
  }

  /** The first `n` additions made in order; None for a negative position. */
  function InsertAll(fields: seq<string>, add: seq<Header>, n: nat): Option<seq<string>>
    requires n <= |add|
  {
    if n == 0 then Some(fields)
    else
      var before := InsertAll(fields, add, n - 1);
      if before.None? || add[n - 1].order < 0 then None else Some(InsertAt(before.value, add[n - 1]))
  }

  /** Growing by one, shifting up, and storing, as the slice is updated. */
  method InsertFields(fields: seq<string>, add: seq<Header>) returns (r: Option<seq<string>>)
    ensures r == InsertAll(fields, add, |add|)
  {
    var out := fields;
    for i := 0 to |add|
      invariant InsertAll(fields, add, i) == Some(out)
    {
      var h := add[i];
      var at := h.order;
      if at > |out| {
        at := |out|;
      }
      if at < 0 {
        AlreadyFailed(fields, add, i + 1, |add|);
        return None;
      }
      ghost var before := out;
      var old_ := out;
      out := out + [""];
      var j := |old_|;
      while j > at
        invariant at <= j <= |old_| && |out| == |old_| + 1
        invariant forall k :: 0 <= k < j ==> out[k] == old_[k]
        invariant forall k :: j < k <= |old_| ==> out[k] == old_[k - 1]
      {
        out := out[j := out[j - 1]];
        j := j - 1;
      }
      out := out[at := h.name + ": " + h.value];
      assert out == InsertAt(before, h);
    }
    return Some(out);
  }

  lemma {:induction false} AlreadyFailed(fields: seq<string>, add: seq<Header>, i: nat, n: nat)
    requires i <= n <= |add| && InsertAll(fields, add, i).None?
    ensures InsertAll(fields, add, n).None?
  {
    if i < n { AlreadyFailed(fields, add, i, n - 1); }
  }

  // ---------- the whole rewriting ----------

  datatype Split3 = Split3(header: string, sep: string, body: string)

  /** The message cut at its first blank line, CRLF style first. */
  function CutMessage(data: string): Option<Split3> {
    var n := Index(data, "\r\n\r\n");
    if n >= 0 then Some(Split3(data[..n], "\r\n\r\n", data[n + 4..]))
    else
      var m := Index(data, "\n\n");
      if m >= 0 then Some(Split3(data[..m], "\n\n", data[m + 2..])) else None
  }

  function Eol(sep: string): (eol: string)
    ensures eol != ""
  {
    if sep == "\r\n\r\n" then "\r\n" else "\n"
  }

  ghost predicate Enumerates(order: seq<string>, remove: map<string, int>) {
    (forall i, j :: 0 <= i < j < |order| ==> order[i] != order[j]) && forall k :: k in order <==> k in remove
  }

  function Apply(data: string, v: Verdict, order: seq<string>): Option<string>
    requires forall k :: k in order ==> k in v.remove
  {
    var cut := CutMessage(data);
    if cut.None? then None
    else
      var m := cut.value;
      var fields := InsertAll(RemoveAll(Fields(m.header, Eol(m.sep)), v.remove, order), v.add, |v.add|);
      if fields.None? then None else Some(Join(fields.value, Eol(m.sep)) + m.sep + m.body)
  }

  /** `order` is the order in which the removals happened to be visited. */
  method ApplyHeaders(data: string, v: Verdict) returns (r: Option<string>, order: seq<string>)
    ensures Enumerates(order, v.remove)
    ensures r == Apply(data, v, order)
  {
    order := ListKeys(v.remove);
    var sep, eol := "\r\n\r\n", "\r\n";
    var n := Index(data, sep);
    if n < 0 {
      sep, eol := "\n\n", "\n";
      n := Index(data, sep);
    }
    if n < 0 {
      return None, order;
    }
    var fields := BuildFields(data[..n], eol);
    fields := RemoveInOrder(fields, v.remove, order);
    var inserted := InsertFields(fields, v.add);
    if inserted.None? {
      return None, order;
    }
    var out := Join(inserted.value, eol);
    out := out + sep;
    out := out + data[n + |sep|..];
    return Some(out), order;
  }

  method RemoveInOrder(fields: seq<string>, remove: map<string, int>, order: seq<string>) returns (kept: seq<string>)
    requires forall k :: k in order ==> k in remove
    ensures kept == RemoveAll(fields, remove, order)
  {
    kept := fields;
    assert order[0..] == order;
    for i := 0 to |order|
      invariant RemoveAll(fields, remove, order) == RemoveAll(kept, remove, order[i..])
    {
      assert order[i..][0] == order[i] && order[i..][1..] == order[i + 1..];
      kept := RemoveFields(kept, order[i], remove[order[i]]);
    }
  }

  method ListKeys(remove: map<string, int>) returns (order: seq<string>)
    ensures Enumerates(order, remove)
  {
    order := [];
    var rest := remove.Keys;
    while rest != {}
      invariant rest <= remove.Keys
      invariant forall k :: k in order <==> k in remove && k !in rest
      invariant forall i, j :: 0 <= i < j < |order| ==> order[i] != order[j]
    {
      var k :| k in rest;
      rest := rest - {k};
      order := order + [k];
    }
  }

  // ---------- an empty verdict changes nothing ----------

  lemma {:induction false} JoinExtended(fields: seq<string>, line: string, eol: string)
    requires fields != []
    ensures var front, last := fields[..|fields| - 1], fields[|fields| - 1];
            Join(front + [last + eol + line], eol) == Join(fields, eol) + eol + line
  {
    var front, last := fields[..|fields| - 1], fields[|fields| - 1];
    assert fields == front + [last];
    if front != [] {
      JoinAppend(front, [last], eol);
      JoinAppend(front, [last + eol + line], eol);
    }
  }

  lemma {:induction false} UnfoldJoins(lines: seq<string>, n: nat, eol: string)
    requires 0 < n <= |lines|
    ensures Unfold(lines, n, eol) != [] && Join(Unfold(lines, n, eol), eol) == Join(lines[..n], eol)
  {
    if n > 1 {
      UnfoldJoins(lines, n - 1, eol);
      var fields := Unfold(lines, n - 1, eol);
      var line := lines[n - 1];
      assert lines[..n] == lines[..n - 1] + [line];
      JoinAppend(lines[..n - 1], [line], eol);
      if Continuation(line) {
        JoinExtended(fields, line, eol);
      } else {
        JoinAppend(fields, [line], eol);
      }
    }
  }

  /** With nothing to remove or add the message is returned byte for byte,
      whenever it has a header boundary; without one there is an error. */
  lemma {:induction false} EmptyVerdictIsIdentity(data: string)
    ensures Apply(data, Verdict(map[], []), []) == if CutMessage(data).Some? then Some(data) else None
  {
    if CutMessage(data).Some? {
      var m := CutMessage(data).value;
      var eol := Eol(m.sep);
      var lines := Split(m.header, eol);
      UnfoldJoins(lines, |lines|, eol);
      assert lines[..|lines|] == lines;
      JoinSplit(m.header, eol);
      var n := |m.header|;
      assert At(data, m.sep, n);
      assert data == data[..n] + data[n..n + |m.sep|] + data[n + |m.sep|..];
    }
  }
}
