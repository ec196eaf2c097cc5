/** The shape of header fields under either line end: which fields may follow one
    another without making a blank line, through unfolding, removal and insertion. */
module HeaderShape {
  import opened Text
  import opened Headers

  const Lf := "\n"

  predicate LineEnd(eol: string) {
    eol == Crlf || eol == Lf
  }

  predicate FoldByte(c: char) {
    c == ' ' || c == '\t'
  }

  /** Every line break inside the field is followed by a space or a tab. */
  ghost predicate Soft(eol: string, f: string) {
    forall i: nat :: At(f, eol, i) ==> i + |eol| < |f| && FoldByte(f[i + |eol|])
  }

  /** The text starts with an empty line. */
  predicate Empty(eol: string, f: string) {
    f == "" || HasPrefix(f, eol)
  }

  /** A field that starts with text. */
  ghost predicate Tame(eol: string, f: string) {
    Soft(eol, f) && !Empty(eol, f)
  }

  lemma EolAt(eol: string, s: string, i: nat)
    requires LineEnd(eol)
    ensures At(s, eol, i) <==> i + |eol| <= |s| && s[i + |eol| - 1] == '\n' && (eol == Crlf ==> s[i] == '\r')
  {
    if eol == Crlf {
      if i + 2 <= |s| { assert s[i..i + 2] == [s[i], s[i + 1]]; }
    } else {
      if i + 1 <= |s| { assert s[i..i + 1] == [s[i]]; }
    }
  }

  // ---------- the fields of a header block ----------

  ghost predicate NoBreak(eol: string, line: string) {
    forall i: nat :: !At(line, eol, i)
  }

  lemma {:induction false} ContinuedIsSoft(eol: string, f: string, line: string)
    requires LineEnd(eol) && Soft(eol, f) && NoBreak(eol, line) && Continuation(line)
    ensures Soft(eol, f + eol + line)
    ensures Empty(eol, f) <==> Empty(eol, f + eol + line)
    ensures f != "" ==> (f + eol + line)[0] == f[0]
  {
    var s := f + eol + line;
    forall i: nat | At(s, eol, i)
      ensures i + |eol| < |s| && FoldByte(s[i + |eol|])
    {
      EolAt(eol, s, i);
      EolAt(eol, f, i);
      if i >= |f| + |eol| { EolAt(eol, line, i - |f| - |eol|); }
    }
    EolAt(eol, s, 0);
    EolAt(eol, f, 0);
  }

  /** All fields are soft, and all but the first tame. */
  ghost predicate Shape(eol: string, fields: seq<string>) {
    && (forall k :: 0 <= k < |fields| ==> Soft(eol, fields[k]))
    && (forall k :: 0 < k < |fields| ==> Tame(eol, fields[k]))
    && (fields != [] ==> Empty(eol, fields[0]) || Tame(eol, fields[0]))
  }

  /** The first field starts with an empty line. */
  ghost predicate BlankFirst(eol: string, fields: seq<string>) {
    fields != [] && Empty(eol, fields[0])
  }

  /** Lines without a break, none but the first empty. */
  ghost predicate PlainLines(eol: string, lines: seq<string>) {
    && (forall k :: 0 <= k < |lines| ==> NoBreak(eol, lines[k]))
    && (forall k :: 0 < k < |lines| ==> lines[k] != "")
  }

  lemma PlainLine(eol: string, line: string)
    requires LineEnd(eol) && NoBreak(eol, line)
    ensures Soft(eol, line) && (Empty(eol, line) <==> line == "")
  {
    EolAt(eol, line, 0);
  }

  lemma {:induction false} FoldedShape(eol: string, fields: seq<string>, line: string)
    requires LineEnd(eol) && Shape(eol, fields) && fields != [] && NoBreak(eol, line) && Continuation(line)
    ensures var last := |fields| - 1;
            var folded := fields[..last] + [fields[last] + eol + line];
            Shape(eol, folded) && (BlankFirst(eol, folded) <==> BlankFirst(eol, fields))
  {
    ContinuedIsSoft(eol, fields[|fields| - 1], line);
  }

  lemma {:induction false} UnfoldShape(eol: string, lines: seq<string>, n: nat)
    requires LineEnd(eol) && 0 < n <= |lines| && PlainLines(eol, lines)
    ensures Unfold(lines, n, eol) != [] && Shape(eol, Unfold(lines, n, eol))
    ensures BlankFirst(eol, Unfold(lines, n, eol)) <==> lines[0] == ""
  {
    PlainLine(eol, lines[n - 1]);
    if n == 1 {
      assert Unfold(lines, 0, eol) == [];
      assert Unfold(lines, 1, eol) == [lines[0]];
    } else {
      UnfoldShape(eol, lines, n - 1);
      if Continuation(lines[n - 1]) { FoldedShape(eol, Unfold(lines, n - 1, eol), lines[n - 1]); }
    }
  }

  // ---------- removal ----------

  /** Whatever is removed, only the first field can start with an empty line, and
      only if it did. */
  lemma {:induction false} RemoveShape(eol: string, fields: seq<string>, name: string, order: int, n: nat)
    requires Shape(eol, fields) && n <= |fields|
    ensures Shape(eol, Remove(fields, name, order, n))
    ensures BlankFirst(eol, Remove(fields, name, order, n)) ==> BlankFirst(eol, fields)
    ensures BlankFirst(eol, fields) && n > 0 ==>
              (BlankFirst(eol, Remove(fields, name, order, n)) <==> !Selected(fields, name, order, 0))
  {
    if n > 0 { RemoveShape(eol, fields, name, order, n - 1); }
  }

  lemma {:induction false} RemoveAllShape(
    eol: string, fields: seq<string>, remove: map<string, int>, order: seq<string>)
    requires Shape(eol, fields) && forall k :: k in order ==> k in remove
    ensures Shape(eol, RemoveAll(fields, remove, order))
    ensures BlankFirst(eol, RemoveAll(fields, remove, order)) ==> BlankFirst(eol, fields)
    decreases |order|
  {
    if order != [] {
      assert order[0] in order;
      RemoveShape(eol, fields, order[0], remove[order[0]], |fields|);
      RemoveAllShape(eol, Remove(fields, order[0], remove[order[0]], |fields|), remove, order[1..]);
    }
  }

  predicate NoBreaks(name: string) {
    '\r' !in name && '\n' !in name
  }

  lemma BlankIsNotNamed(eol: string, f: string, name: string)
    requires LineEnd(eol) && Empty(eol, f) && NoBreaks(name)
    ensures !Named(f, name)
  {
    if f != "" {
      EolAt(eol, f, 0);
      var i := Index(f, ":");
      if i >= 0 {
        IndexChar(f, ':');
        assert i > 0 && Lower(f[..i])[0] == f[0] && f[0] in ['\r', '\n'];
      }
    }
  }

  /** Names without line breaks never remove the field that starts empty. */
  lemma {:induction false} BlankFieldStays(
    eol: string, fields: seq<string>, remove: map<string, int>, order: seq<string>)
    requires LineEnd(eol) && Shape(eol, fields) && BlankFirst(eol, fields)
    requires forall k :: k in order ==> k in remove && NoBreaks(k)
    ensures BlankFirst(eol, RemoveAll(fields, remove, order))
    decreases |order|
  {
    if order != [] {
      assert order[0] in order;
      BlankIsNotNamed(eol, fields[0], order[0]);
      RemoveShape(eol, fields, order[0], remove[order[0]], |fields|);
      BlankFieldStays(eol, Remove(fields, order[0], remove[order[0]], |fields|), remove, order[1..]);
    }
  }

  // ---------- insertion ----------

  /** All fields tame, except that the one at `blank`, if any, starts with an
      empty line. */
  ghost predicate ShapeAt(eol: string, fields: seq<string>, blank: int) {
    && blank < |fields|
    && (forall k :: 0 <= k < |fields| ==> Soft(eol, fields[k]))
    && forall k :: 0 <= k < |fields| ==> if k == blank then Empty(eol, fields[k]) else Tame(eol, fields[k])
  }

  /** What may be inserted: a plain name, and a value whose line breaks are folds. */
  ghost predicate Checked(eol: string, h: Header) {
    h.name != "" && !ContainsAny(h.name, ": \t\r\n") && Soft(eol, h.value) && h.order >= 0
  }

  lemma RenderIsTame(eol: string, h: Header)
    requires LineEnd(eol) && Checked(eol, h)
    ensures Tame(eol, Render(h))
  {
    var s := Render(h);
    var m := |h.name| + 2;
    forall i: nat | At(s, eol, i)
      ensures i + |eol| < |s| && FoldByte(s[i + |eol|])
    {
      EolAt(eol, s, i);
      if i >= m { EolAt(eol, h.value, i - m); }
    }
    EolAt(eol, s, 0);
    assert s[0] == h.name[0];
  }

  /** Where the blank field is after the first `n` insertions. */
  function BlankAfter(add: seq<Header>, n: nat, blank: int): (r: int)
    requires n <= |add|
    ensures blank < 0 ==> r == blank
    ensures blank >= 0 ==> r >= blank
  {
    if n == 0 then blank
    else
      var b := BlankAfter(add, n - 1, blank);
      if b >= 0 && add[n - 1].order <= b then b + 1 else b
  }

  lemma {:induction false} InsertShape(eol: string, fields: seq<string>, add: seq<Header>, n: nat, blank: int)
    requires LineEnd(eol) && ShapeAt(eol, fields, blank) && n <= |add| && blank >= -1
    requires forall h :: h in add ==> Checked(eol, h)
    ensures InsertAll(fields, add, n).Some?
    ensures ShapeAt(eol, InsertAll(fields, add, n).value, BlankAfter(add, n, blank))
  {
    if n > 0 {
      InsertShape(eol, fields, add, n - 1, blank);
      var before, b, h := InsertAll(fields, add, n - 1).value, BlankAfter(add, n - 1, blank), add[n - 1];
      assert h in add;
      RenderIsTame(eol, h);
      var at := if h.order > |before| then |before| else h.order;
      var after := InsertAt(before, h);
      forall k | 0 <= k < |after|
        ensures Soft(eol, after[k])
        ensures if k == BlankAfter(add, n, blank) then Empty(eol, after[k]) else Tame(eol, after[k])
      {
        assert after[k] == if k < at then before[k] else if k == at then Render(h) else before[k - 1];
      }
    }
  }

  predicate InsertsAtTop(add: seq<Header>) {
    exists k :: 0 <= k < |add| && add[k].order == 0
  }

  lemma {:induction false} BlankMoves(add: seq<Header>, n: nat)
    requires n <= |add| && forall h :: h in add ==> h.order >= 0
    ensures BlankAfter(add, n, 0) > 0 <==> exists k :: 0 <= k < n && add[k].order == 0
  {
    if n > 0 {
      BlankMoves(add, n - 1);
      assert add[n - 1] in add;
    }
  }

  /** The fields after insertion, with a blank field behind another one exactly
      when one was first and something was put before it. */
  lemma {:induction false} Rewritten(eol: string, fields: seq<string>, add: seq<Header>) returns (blank: int)
    requires LineEnd(eol) && Shape(eol, fields) && forall h :: h in add ==> Checked(eol, h)
    ensures InsertAll(fields, add, |add|).Some? && ShapeAt(eol, InsertAll(fields, add, |add|).value, blank)
    ensures blank >= -1 && (blank > 0 <==> BlankFirst(eol, fields) && InsertsAtTop(add))
  {
    var first := if BlankFirst(eol, fields) then 0 else -1;
    InsertShape(eol, fields, add, |add|, first);
    BlankMoves(add, |add|);
    blank := BlankAfter(add, |add|, first);
  }
}
