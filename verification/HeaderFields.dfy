/** What the fields of a header block are, and that a rewritten block reads back
    as the fields it was made of. */
module HeaderFields {
  import opened Text
  import opened Headers
  import opened HeaderShape
  import opened HeaderBody

  // ---------- lines ----------

  lemma {:induction false} LinesHaveNoBreak(s: string, eol: string, k: nat)
    requires LineEnd(eol) && k < |Split(s, eol)|
    ensures NoBreak(eol, Split(s, eol)[k])
    decreases |s|
  {
    var i := Index(s, eol);
    if i >= 0 && k > 0 {
      LinesHaveNoBreak(s[i + |eol|..], eol, k - 1);
    } else if i >= 0 {
      FirstLineHasNoBreak(s, eol, i);
    }
  }

  lemma {:induction false} FirstLineHasNoBreak(s: string, eol: string, i: nat)
    requires LineEnd(eol) && i <= |s| && forall j: nat :: At(s, eol, j) ==> i <= j
    ensures NoBreak(eol, s[..i])
  {
    forall j: nat
      ensures !At(s[..i], eol, j)
    {
      EolAt(eol, s[..i], j);
      EolAt(eol, s, j);
    }
  }

  // ---------- fields ----------

  /** The block cut into fields: no break inside a field but a fold, and no field
      but the first that starts like one. */
  ghost predicate Cut(eol: string, fields: seq<string>) {
    && fields != []
    && (forall k :: 0 <= k < |fields| ==> Soft(eol, fields[k]))
    && (forall k :: 0 < k < |fields| ==> !Continuation(fields[k]))
  }

  lemma StartsAlike(f: string, more: string, eol: string)
    requires LineEnd(eol)
    ensures Continuation(f + eol + more) <==> Continuation(f)
  {
    var s := f + eol + more;
    if f != "" { assert s[..1] == f[..1] == [f[0]]; } else { assert s[..1] == [eol[0]]; }
  }

  lemma {:induction false} UnfoldCuts(lines: seq<string>, n: nat, eol: string)
    requires LineEnd(eol) && 0 < n <= |lines| && forall k :: 0 <= k < |lines| ==> NoBreak(eol, lines[k])
    ensures Cut(eol, Unfold(lines, n, eol))
  {
    PlainLine(eol, lines[n - 1]);
    if n == 1 {
      assert Unfold(lines, 0, eol) == [] && Unfold(lines, 1, eol) == [lines[0]];
    } else {
      UnfoldCuts(lines, n - 1, eol);
      var fields := Unfold(lines, n - 1, eol);
      if Continuation(lines[n - 1]) {
        ContinuedIsSoft(eol, fields[|fields| - 1], lines[n - 1]);
        StartsAlike(fields[|fields| - 1], lines[n - 1], eol);
      }
    }
  }

  /** The fields of a block are such a cut, and joined they are the block. */
  lemma {:induction false} FieldsAreCut(block: string, eol: string)
    requires LineEnd(eol)
    ensures Cut(eol, Fields(block, eol)) && Join(Fields(block, eol), eol) == block
  {
    var lines := Split(block, eol);
    forall k: nat | k < |lines|
      ensures NoBreak(eol, lines[k])
    {
      LinesHaveNoBreak(block, eol, k);
    }
    UnfoldCuts(lines, |lines|, eol);
    UnfoldJoins(lines, |lines|, eol);
    assert lines[..|lines|] == lines;
    JoinSplit(block, eol);
  }

  // ---------- the cut is unique ----------

  /** A joined block is its first field and, after a line end, the rest, which does
      not start like a fold. */
  lemma {:induction false} FirstField(fields: seq<string>, eol: string)
    requires LineEnd(eol) && Cut(eol, fields)
    ensures var s, n := Join(fields, eol), |fields[0]|;
            && HasPrefix(s, fields[0])
            && (if |fields| == 1 then s == fields[0]
                else At(s, eol, n) && s[n + |eol|..] == Join(fields[1..], eol)
                     && (n + |eol| < |s| ==> !FoldByte(s[n + |eol|])))
  {
    if |fields| > 1 {
      var f, rest := fields[0], Join(fields[1..], eol);
      var s := f + eol + rest;
      assert s[|f|..|f| + |eol|] == eol && s[|f| + |eol|..] == rest;
      assert !Continuation(rest) by {
        assert fields[1..][0] == fields[1];
        if |fields| > 2 { StartsAlike(fields[1], Join(fields[1..][1..], eol), eol); }
      }
      if rest != "" { assert rest[..1] == [rest[0]]; }
    }
  }

  /** Of two cuts of one block neither starts with a shorter field. */
  lemma {:induction false} FirstNotShorter(xs: seq<string>, ys: seq<string>, eol: string)
    requires LineEnd(eol) && Cut(eol, xs) && Cut(eol, ys) && Join(xs, eol) == Join(ys, eol)
    ensures |xs[0]| >= |ys[0]|
  {
    var s, n, y := Join(xs, eol), |xs[0]|, ys[0];
    FirstField(xs, eol);
    FirstField(ys, eol);
    if n < |y| {
      EolAt(eol, s, n);
      EolAt(eol, s, |y|);
      EolAt(eol, y, n);
    }
  }

  /** So a block can be cut into fields in one way only. */
  lemma {:induction false} CutIsUnique(xs: seq<string>, ys: seq<string>, eol: string)
    requires LineEnd(eol) && Cut(eol, xs) && Cut(eol, ys) && Join(xs, eol) == Join(ys, eol)
    ensures xs == ys
    decreases |xs|
  {
    FirstNotShorter(xs, ys, eol);
    FirstNotShorter(ys, xs, eol);
    FirstField(xs, eol);
    FirstField(ys, eol);
    assert xs[0] == ys[0];
    if |xs| > 1 && |ys| > 1 {
      CutIsUnique(xs[1..], ys[1..], eol);
      assert xs == [xs[0]] + xs[1..] && ys == [ys[0]] + ys[1..];
    }
  }

  /** Reading back: joined fields are read as those fields exactly when none but the
      first starts with a space or a tab. */
  lemma {:induction false} ReadBackExactly(fields: seq<string>, eol: string)
    requires LineEnd(eol) && fields != [] && forall k :: 0 <= k < |fields| ==> Soft(eol, fields[k])
    ensures Fields(Join(fields, eol), eol) == fields <==> forall k :: 0 < k < |fields| ==> !Continuation(fields[k])
  {
    FieldsAreCut(Join(fields, eol), eol);
    if forall k :: 0 < k < |fields| ==> !Continuation(fields[k]) {
      CutIsUnique(fields, Fields(Join(fields, eol), eol), eol);
    }
  }

  // ---------- insertion ----------

  /** An addition stands at its position, or last, and the others are as before. */
  lemma InsertedAt(fields: seq<string>, h: Header)
    requires h.order >= 0
    ensures var r, at := InsertAt(fields, h), if h.order <= |fields| then h.order else |fields|;
            |r| == |fields| + 1 && r[at] == Render(h) && r[..at] == fields[..at] && r[at + 1..] == fields[at..]
  {
  }

  /** An inserted field has its name before the colon and its value after it. */
  lemma RenderedField(h: Header)
    requires ':' !in h.name
    ensures Named(Render(h), h.name) && Render(h)[..|h.name| + 1] == h.name + ":"
    ensures Render(h)[|h.name| + 1..] == " " + h.value
  {
    var s := Render(h);
    IndexChar(s, ':');
    assert s[|h.name|] == ':' && s[..|h.name|] == h.name;
    assert At(s, ":", |h.name|) by { assert s[|h.name|..|h.name| + 1] == ":"; }
  }

  function Rendered(add: seq<Header>, n: nat): seq<string>
    requires n <= |add|
  {
    seq(n, i requires 0 <= i < n => Render(add[i]))
  }

  lemma {:induction false} SplicedIn(s: seq<string>, at: nat, x: string)
    requires at <= |s|
    ensures multiset(s[..at] + [x] + s[at..]) == multiset(s) + multiset{x}
  {
    assert s == s[..at] + s[at..];
  }

  lemma {:induction false} InsertKeepsRest(fields: seq<string>, h: Header)
    requires h.order >= 0
    ensures multiset(InsertAt(fields, h)) == multiset(fields) + multiset{Render(h)}
  {
    SplicedIn(fields, if h.order > |fields| then |fields| else h.order, Render(h));
  }

  /** Nothing is lost and nothing else is added. */
  lemma {:induction false} InsertKeepsAll(fields: seq<string>, add: seq<Header>, n: nat)
    requires n <= |add| && InsertAll(fields, add, n).Some?
    ensures multiset(InsertAll(fields, add, n).value) == multiset(fields) + multiset(Rendered(add, n))
  {
    if n > 0 {
      InsertKeepsAll(fields, add, n - 1);
      var before, h := InsertAll(fields, add, n - 1).value, add[n - 1];
      InsertKeepsRest(before, h);
      RenderedNext(add, n);
      assert InsertAll(fields, add, n).value == InsertAt(before, h);
    }
  }

  lemma RenderedNext(add: seq<Header>, n: nat)
    requires 0 < n <= |add|
    ensures multiset(Rendered(add, n)) == multiset(Rendered(add, n - 1)) + multiset{Render(add[n - 1])}
  {
    assert Rendered(add, n) == Rendered(add, n - 1) + [Render(add[n - 1])];
  }

  // ---------- the rewritten message ----------

  /** A reader of a rewritten CRLF message whose body is where it was finds the
      fields that were kept, and the additions at their places, exactly when no
      field but the first starts with a space or a tab. */
  lemma {:induction false} MessageReadsBack(
    data: string, header: string, body: string, v: Verdict, order: seq<string>)
    requires CrlfMessage(data, header, body)
    requires (forall k :: k in order ==> k in v.remove) && forall h :: h in v.add ==> Checked(Crlf, h)
    requires Apply(data, v, order).Some? && CutMessage(Apply(data, v, order).value).Some?
    requires CutMessage(Apply(data, v, order).value).value.sep == Blank
    requires CutMessage(Apply(data, v, order).value).value.body == body
    ensures var kept := RemoveAll(Fields(header, Crlf), v.remove, order);
            var fields := InsertAll(kept, v.add, |v.add|);
            && fields.Some?
            && (fields.value != [] ==>
                  (Fields(CutMessage(Apply(data, v, order).value).value.header, Crlf) == fields.value <==>
                     forall k :: 0 < k < |fields.value| ==> !Continuation(fields.value[k])))
  {
    var kept := RemoveAll(Fields(header, Crlf), v.remove, order);
    KeptIsSoft(data, header, body, v, order);
    var blank := Rewritten(Crlf, kept, v.add);
    var fields := InsertAll(kept, v.add, |v.add|).value;
    var out := Apply(data, v, order).value;
    var cut := CutMessage(out).value;
    assert out == Join(fields, Crlf) + Blank + body;
    assert out == cut.header + Blank + cut.body by { HeaderOfCut(out); }
    assert |cut.header| == |Join(fields, Crlf)|;
    assert cut.header == out[..|cut.header|] == Join(fields, Crlf);
    if fields != [] { ReadBackExactly(fields, Crlf); }
  }

  lemma HeaderOfCut(out: string)
    requires CutMessage(out).Some? && CutMessage(out).value.sep == Blank
    ensures var cut := CutMessage(out).value; out == cut.header + Blank + cut.body
  {
    var n := Index(out, "\r\n\r\n");
    if n >= 0 { assert out == out[..n] + out[n..n + 4] + out[n + 4..]; }
  }

  lemma {:induction false} KeptIsSoft(data: string, header: string, body: string, v: Verdict, order: seq<string>)
    requires CrlfMessage(data, header, body) && forall k :: k in order ==> k in v.remove
    ensures Shape(Crlf, RemoveAll(Fields(header, Crlf), v.remove, order))
  {
    var lines := Split(header, Crlf);
    HeaderIsClean(data, header, body);
    LinesOfClean(header);
    UnfoldShape(Crlf, lines, |lines|);
    RemoveAllShape(Crlf, Fields(header, Crlf), v.remove, order);
  }
}
