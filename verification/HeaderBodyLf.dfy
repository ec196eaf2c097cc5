/** When header rewriting leaves the body where a reader finds it: messages with
    bare line feeds. */
module HeaderBodyLf {
  import opened Text
  import opened Headers
  import opened HeaderShape

  const BlankLf := "\n\n"

  /** No line feed is followed by another one, or ends the text. */
  predicate NoBlankLf(j: string) {
    forall i :: 0 <= i < |j| && j[i] == '\n' ==> i + 1 < |j| && j[i + 1] != '\n'
  }

  lemma BlankLfAt(s: string, i: nat)
    ensures At(s, BlankLf, i) <==> i + 2 <= |s| && s[i] == '\n' && s[i + 1] == '\n'
  {
    if i + 2 <= |s| { assert s[i..i + 2] == [s[i], s[i + 1]]; }
  }

  lemma BlankCrlfAt(s: string, i: nat)
    ensures At(s, Blank, i) <==>
              i + 4 <= |s| && s[i] == '\r' && s[i + 1] == '\n' && s[i + 2] == '\r' && s[i + 3] == '\n'
  {
    if i + 4 <= |s| { assert s[i..i + 4] == [s[i], s[i + 1], s[i + 2], s[i + 3]]; }
  }

  // ---------- the lines of a header block ----------

  lemma {:induction false} LinesOfHeader(h: string)
    requires NoBlankLf(h)
    ensures var lines := Split(h, Lf); PlainLines(Lf, lines) && (lines[0] == "" <==> Empty(Lf, h))
    decreases |h|
  {
    IndexChar(h, '\n');
    EolAt(Lf, h, 0);
    var i := Index(h, Lf);
    var line := if i < 0 then h else h[..i];
    forall k: nat
      ensures !At(line, Lf, k)
    {
      EolAt(Lf, line, k);
    }
    if i >= 0 {
      var rest := h[i + 1..];
      assert rest != "" && rest[0] == h[i + 1];
      EolAt(Lf, rest, 0);
      forall k | 0 <= k < |rest| && rest[k] == '\n'
        ensures k + 1 < |rest| && rest[k + 1] != '\n'
      {
        assert h[i + 1 + k] == '\n';
      }
      LinesOfHeader(rest);
    }
  }

  // ---------- joined fields ----------

  /** A field that ends in a carriage return before one whose first line is
      nothing else: joined by a line feed they make a CRLF blank line. */
  predicate MeetInCrlf(a: string, b: string) {
    a != "" && a[|a| - 1] == '\r' && b != "" && b[0] == '\r' && (|b| == 1 || b[1] == '\n')
  }

  predicate CrlfMeeting(fields: seq<string>) {
    exists k :: 0 <= k && k + 1 < |fields| && MeetInCrlf(fields[k], fields[k + 1])
  }

  ghost predicate HasCrlfBlank(t: string) {
    exists i: nat :: At(t, Blank, i)
  }

  lemma {:induction false} ConsCrlfBlank(f: string, t: string)
    requires Soft(Lf, f)
    ensures HasCrlfBlank(f + Lf + t) <==>
              HasCrlfBlank(t) || (f != "" && f[|f| - 1] == '\r' && |t| >= 2 && t[0] == '\r' && t[1] == '\n')
  {
    var s := f + Lf + t;
    forall i: nat
      ensures At(s, Blank, i) <==>
                (i > |f| && At(t, Blank, i - |f| - 1))
                || (i + 1 == |f| && f[i] == '\r' && |t| >= 2 && t[0] == '\r' && t[1] == '\n')
    {
      BlankCrlfAt(s, i);
      EolAt(Lf, f, i + 1);
      if i > |f| { BlankCrlfAt(t, i - |f| - 1); }
    }
    forall i: nat
      ensures At(t, Blank, i) ==> At(s, Blank, i + |f| + 1)
    {
    }
    if f != "" { assert At(s, Blank, |f| - 1) <==> f[|f| - 1] == '\r' && |t| >= 2 && t[0] == '\r' && t[1] == '\n'; }
  }

  lemma {:induction false} JoinedCrlfBlank(fields: seq<string>)
    requires fields != [] && forall f :: f in fields ==> Soft(Lf, f)
    ensures HasCrlfBlank(Join(fields, Lf) + Lf) <==> CrlfMeeting(fields)
  {
    assert fields[0] in fields;
    if |fields| == 1 {
      ConsCrlfBlank(fields[0], "");
      assert fields[0] + Lf + "" == Join(fields, Lf) + Lf;
      BlankCrlfNone();
    } else {
      var f, rest := fields[0], fields[1..];
      var t := Join(rest, Lf) + Lf;
      JoinedCrlfBlank(rest);
      ConsCrlfBlank(f, t);
      assert Join(fields, Lf) + Lf == f + Lf + t;
      FirstLineOfJoin(rest);
      assert rest[0] == fields[1];
      MeetingOfCons(fields);
    }
  }

  lemma BlankCrlfNone()
    ensures !HasCrlfBlank("")
  {
  }

  lemma FirstLineOfJoin(fields: seq<string>)
    requires fields != []
    ensures var t, b := Join(fields, Lf) + Lf, fields[0];
            (|t| >= 2 && t[0] == '\r' && t[1] == '\n') <==> (b != "" && b[0] == '\r' && (|b| == 1 || b[1] == '\n'))
  {
  }

  lemma MeetingOfCons(fields: seq<string>)
    requires |fields| > 1
    ensures CrlfMeeting(fields) <==> CrlfMeeting(fields[1..]) || MeetInCrlf(fields[0], fields[1])
  {
    var rest := fields[1..];
    forall k | 0 <= k && k + 1 < |rest|
      ensures MeetInCrlf(rest[k], rest[k + 1]) <==> MeetInCrlf(fields[k + 1], fields[k + 2])
    {
    }
    if k :| 0 <= k && k + 1 < |fields| && MeetInCrlf(fields[k], fields[k + 1]) {
      if k > 0 { assert MeetInCrlf(rest[k - 1], rest[k - 1 + 1]); }
    }
  }

  lemma {:induction false} ConsNoBlank(f: string, j: string)
    requires Soft(Lf, f) && NoBlankLf(j) && j != "" && j[0] != '\n'
    ensures NoBlankLf(f + Lf + j)
  {
    var s := f + Lf + j;
    forall i | 0 <= i < |s| && s[i] == '\n'
      ensures i + 1 < |s| && s[i + 1] != '\n'
    {
      EolAt(Lf, f, i);
      if i > |f| { assert s[i] == j[i - |f| - 1]; }
    }
  }

  lemma SoftAlone(f: string)
    requires Soft(Lf, f)
    ensures NoBlankLf(f)
  {
    forall i | 0 <= i < |f| && f[i] == '\n'
      ensures i + 1 < |f| && FoldByte(f[i + 1])
    {
      EolAt(Lf, f, i);
    }
  }

  lemma {:induction false} JoinNoBlank(fields: seq<string>)
    requires (forall f :: f in fields ==> Soft(Lf, f)) && forall k :: 0 < k < |fields| ==> Tame(Lf, fields[k])
    ensures NoBlankLf(Join(fields, Lf))
    ensures fields != [] && Tame(Lf, fields[0]) ==> Join(fields, Lf) != "" && Join(fields, Lf)[0] != '\n'
  {
    if fields != [] {
      assert fields[0] in fields;
      SoftAlone(fields[0]);
      EolAt(Lf, fields[0], 0);
      if |fields| > 1 {
        JoinNoBlank(fields[1..]);
        ConsNoBlank(fields[0], Join(fields[1..], Lf));
      }
    }
  }

  // ---------- the boundary ----------

  lemma {:induction false} CrlfBoundary(j: string, body: string)
    requires !HasCrlfBlank(body)
    ensures var n := Index(j + BlankLf + body, Blank);
            n < |j| && (n >= 0 <==> HasCrlfBlank(j + Lf))
  {
    var s := j + BlankLf + body;
    forall i: nat
      ensures At(s, Blank, i) <==> At(j + Lf, Blank, i)
    {
      BlankCrlfAt(s, i);
      BlankCrlfAt(j + Lf, i);
      if i >= |j| + 2 { BlankCrlfAt(body, i - |j| - 2); }
    }
    forall i: nat | At(s, Blank, i)
      ensures i < |j|
    {
      BlankCrlfAt(j + Lf, i);
    }
  }

  /** The body of a rewritten message is found where it was put exactly when the
      block holds no blank line of either kind. */
  lemma {:induction false} CutAtBlock(j: string, body: string)
    requires !HasCrlfBlank(body)
    ensures var s := j + BlankLf + body;
            && CutMessage(s).Some?
            && (CutMessage(s).value.body == body <==> !HasCrlfBlank(j + Lf) && Index(s, BlankLf) == |j|)
  {
    var s := j + BlankLf + body;
    CrlfBoundary(j, body);
    BlankLfAt(s, |j|);
    assert s[|j| + 2..] == body;
    var n := Index(s, Blank);
    if n >= 0 {
      BlankCrlfAt(j + Lf, n);
      BlankCrlfAt(s, n);
      assert |s[n + 4..]| > |body|;
    }
  }

  lemma {:induction false} BoundaryOfNoBlank(j: string, body: string)
    requires NoBlankLf(j)
    ensures Index(j + BlankLf + body, BlankLf) == |j|
  {
    var s := j + BlankLf + body;
    BlankLfAt(s, |j|);
    forall i: nat | i < |j|
      ensures !At(s, BlankLf, i)
    {
      BlankLfAt(s, i);
    }
  }

  lemma {:induction false} BlankInside(fields: seq<string>, blank: nat, body: string)
    requires ShapeAt(Lf, fields, blank) && blank > 0
    ensures Index(Join(fields, Lf) + BlankLf + body, BlankLf) < |Join(fields, Lf)|
  {
    var a, b := fields[..blank], fields[blank..];
    assert fields == a + b;
    JoinAppend(a, b, Lf);
    var x, y := Join(a, Lf), Join(b, Lf);
    var s := x + Lf + y + BlankLf + body;
    assert y == "" || y[0] == '\n' by {
      assert b[0] == fields[blank];
      EolAt(Lf, b[0], 0);
    }
    assert s[|x|] == '\n' && s[|x| + 1] == '\n';
    BlankLfAt(s, |x|);
  }

  lemma {:induction false} BoundaryOfShape(fields: seq<string>, blank: int, body: string)
    requires ShapeAt(Lf, fields, blank) && blank >= -1
    ensures Index(Join(fields, Lf) + BlankLf + body, BlankLf) == |Join(fields, Lf)| <==> blank <= 0
    ensures HasCrlfBlank(Join(fields, Lf) + Lf) <==> CrlfMeeting(fields)
  {
    forall f | f in fields
      ensures Soft(Lf, f)
    {
      var k :| 0 <= k < |fields| && fields[k] == f;
    }
    if fields == [] {
      assert Join(fields, Lf) + Lf == Lf;
      forall i: nat
        ensures !At(Lf, Blank, i)
      {
      }
    } else {
      JoinedCrlfBlank(fields);
    }
    if blank > 0 {
      BlankInside(fields, blank, body);
    } else {
      JoinNoBlank(fields);
      BoundaryOfNoBlank(Join(fields, Lf), body);
    }
  }

  /** A message without a CRLF blank line, cut at its first bare one. */
  ghost predicate LfMessage(data: string, header: string, body: string) {
    CutMessage(data) == Some(Split3(header, BlankLf, body))
  }

  lemma {:induction false} PartsOfMessage(data: string, header: string, body: string)
    requires LfMessage(data, header, body)
    ensures NoBlankLf(header) && !HasCrlfBlank(body)
  {
    var m := Index(data, BlankLf);
    assert header == data[..m] && body == data[m + 2..];
    BlankLfAt(data, m);
    forall i | 0 <= i < |header| && header[i] == '\n'
      ensures i + 1 < |header| && header[i + 1] != '\n'
    {
      BlankLfAt(data, i);
    }
    forall i: nat
      ensures !At(body, Blank, i)
    {
      BlankCrlfAt(body, i);
      BlankCrlfAt(data, m + 2 + i);
    }
  }

  /** Rewriting a message with bare line feeds and checked additions, whatever is
      removed: the body is where it was exactly unless two fields of the result
      meet in a CRLF blank line, or a field that starts with an empty line is
      still first after the removals and something is inserted before it. */
  lemma {:induction false} BodyIsPreserved(data: string, header: string, body: string, v: Verdict, order: seq<string>)
    requires LfMessage(data, header, body)
    requires (forall k :: k in order ==> k in v.remove) && forall h :: h in v.add ==> Checked(Lf, h)
    ensures var kept := RemoveAll(Fields(header, Lf), v.remove, order);
            var fields := InsertAll(kept, v.add, |v.add|);
            && fields.Some? && Apply(data, v, order).Some?
            && CutMessage(Apply(data, v, order).value).Some?
            && (CutMessage(Apply(data, v, order).value).value.body == body <==>
                  !CrlfMeeting(fields.value) && !(BlankFirst(Lf, kept) && InsertsAtTop(v.add)))
            && (BlankFirst(Lf, kept) ==> Empty(Lf, header))
  {
    var lines := Split(header, Lf);
    PartsOfMessage(data, header, body);
    LinesOfHeader(header);
    UnfoldShape(Lf, lines, |lines|);
    var kept := RemoveAll(Fields(header, Lf), v.remove, order);
    RemoveAllShape(Lf, Fields(header, Lf), v.remove, order);
    var blank := Rewritten(Lf, kept, v.add);
    var fields := InsertAll(kept, v.add, |v.add|).value;
    BoundaryOfShape(fields, blank, body);
    CutAtBlock(Join(fields, Lf), body);
  }

  // ---------- no carriage return in the header block ----------

  /** No field starts with a carriage return. */
  ghost predicate NoCrStart(fields: seq<string>) {
    forall k :: 0 <= k < |fields| && fields[k] != "" ==> fields[k][0] != '\r'
  }

  lemma {:induction false} LinesWithoutCr(h: string)
    requires '\r' !in h
    ensures NoCrStart(Split(h, Lf))
    decreases |h|
  {
    var i := Index(h, Lf);
    if i >= 0 { LinesWithoutCr(h[i + 1..]); }
  }

  lemma {:induction false} UnfoldWithoutCr(lines: seq<string>, n: nat)
    requires n <= |lines| && NoCrStart(lines)
    ensures NoCrStart(Unfold(lines, n, Lf))
  {
    if n > 0 {
      UnfoldWithoutCr(lines, n - 1);
      var fields := Unfold(lines, n - 1, Lf);
      if fields != [] {
        var last := fields[|fields| - 1];
        assert (last + Lf + lines[n - 1])[0] == if last == "" then '\n' else last[0];
      }
    }
  }

  lemma {:induction false} RemoveWithoutCr(fields: seq<string>, name: string, order: int, n: nat)
    requires n <= |fields| && NoCrStart(fields)
    ensures NoCrStart(Remove(fields, name, order, n))
  {
    if n > 0 { RemoveWithoutCr(fields, name, order, n - 1); }
  }

  lemma {:induction false} RemoveAllWithoutCr(fields: seq<string>, remove: map<string, int>, order: seq<string>)
    requires NoCrStart(fields) && forall k :: k in order ==> k in remove
    ensures NoCrStart(RemoveAll(fields, remove, order))
    decreases |order|
  {
    if order != [] {
      assert order[0] in order;
      RemoveWithoutCr(fields, order[0], remove[order[0]], |fields|);
      RemoveAllWithoutCr(Remove(fields, order[0], remove[order[0]], |fields|), remove, order[1..]);
    }
  }

  lemma {:induction false} InsertWithoutCr(fields: seq<string>, add: seq<Header>, n: nat)
    requires NoCrStart(fields) && n <= |add| && forall h :: h in add ==> Checked(Lf, h)
    ensures InsertAll(fields, add, n).Some? && NoCrStart(InsertAll(fields, add, n).value)
  {
    if n > 0 {
      InsertWithoutCr(fields, add, n - 1);
      assert add[n - 1] in add;
      assert Render(add[n - 1])[0] == add[n - 1].name[0];
    }
  }

  /** Without a carriage return in the header block only the empty first line is
      left to go wrong. */
  lemma {:induction false} BodyIsPreservedWithoutCr(
    data: string, header: string, body: string, v: Verdict, order: seq<string>)
    requires LfMessage(data, header, body) && '\r' !in header
    requires (forall k :: k in order ==> k in v.remove) && forall h :: h in v.add ==> Checked(Lf, h)
    ensures Apply(data, v, order).Some?
    ensures var cut, kept := CutMessage(Apply(data, v, order).value), RemoveAll(Fields(header, Lf), v.remove, order);
            cut.Some? && (cut.value.body == body <==> !(BlankFirst(Lf, kept) && InsertsAtTop(v.add)))
  {
    BodyIsPreserved(data, header, body, v, order);
    var lines := Split(header, Lf);
    LinesWithoutCr(header);
    UnfoldWithoutCr(lines, |lines|);
    RemoveAllWithoutCr(Fields(header, Lf), v.remove, order);
    InsertWithoutCr(RemoveAll(Fields(header, Lf), v.remove, order), v.add, |v.add|);
  }

  // ---------- a carriage return in the header block ----------

  const Mixed := "\r\nB:\n\r\nC\n\n"

  const MixedHeader := "\r\nB:\n\r\nC"

  lemma CutAt(data: string, m: nat)
    requires (forall i: nat :: !At(data, Blank, i)) && At(data, BlankLf, m)
    requires forall i: nat :: i < m ==> !At(data, BlankLf, i)
    ensures LfMessage(data, data[..m], data[m + 2..])
  {
  }

  lemma MixedIsCut()
    ensures LfMessage(Mixed, MixedHeader, "")
  {
    forall i: nat
      ensures !At(Mixed, Blank, i) && (i < 8 ==> !At(Mixed, BlankLf, i))
    {
      BlankCrlfAt(Mixed, i);
      BlankLfAt(Mixed, i);
    }
    BlankLfAt(Mixed, 8);
    CutAt(Mixed, 8);
    assert Mixed[..8] == MixedHeader && Mixed[10..] == "";
  }

  lemma {:induction false} UnfoldPlain(lines: seq<string>, n: nat)
    requires n <= |lines| && forall k :: 0 < k < n ==> !Continuation(lines[k])
    ensures Unfold(lines, n, Lf) == lines[..n]
  {
    if n > 0 { UnfoldPlain(lines, n - 1); }
  }

  lemma {:induction false} FieldsOfLines(lines: seq<string>)
    requires lines != [] && (forall l :: l in lines ==> '\n' !in l)
    requires forall k :: 0 < k < |lines| ==> !Continuation(lines[k])
    ensures Fields(Join(lines, Lf), Lf) == lines
  {
    SplitJoin(lines, '\n');
    UnfoldPlain(lines, |lines|);
  }

  lemma JoinTwo(a: string, rest: seq<string>)
    requires rest != []
    ensures Join([a] + rest, Lf) == a + Lf + Join(rest, Lf)
  {
    assert ([a] + rest)[1..] == rest;
  }

  lemma NotNamed(field: string, name: string)
    requires ':' !in field
    ensures !Named(field, name)
  {
    IndexChar(field, ':');
  }

  const MixedFields := ["\r"] + (["B:"] + (["\r"] + ["C"]))

  lemma FieldsOfMixed()
    ensures Fields(MixedHeader, Lf) == MixedFields
  {
    JoinTwo("\r", ["C"]);
    JoinTwo("B:", ["\r"] + ["C"]);
    JoinTwo("\r", ["B:"] + (["\r"] + ["C"]));
    assert Join(MixedFields, Lf) == MixedHeader;
    assert !Continuation("B:") && !Continuation("\r") && !Continuation("C") by {
      assert "B:"[..1] == "B" && "\r"[..1] == "\r" && "C"[..1] == "C";
    }
    FieldsOfLines(MixedFields);
  }

  lemma RemovedFromMixed()
    ensures RemoveAll(MixedFields, map["B" := 0], ["B"]) == MixedKept
  {
    assert Named("B:", "B") by {
      IndexChar("B:", ':');
      assert "B:"[..1] == "B";
    }
    NotNamed("\r", "B");
    NotNamed("C", "B");
    RemoveSecond(MixedFields, "B");
  }

  /** One named field of four. */
  lemma {:induction false} RemoveSecond(fields: seq<string>, name: string)
    requires |fields| == 4 && Named(fields[1], name)
    requires !Named(fields[0], name) && !Named(fields[2], name) && !Named(fields[3], name)
    ensures RemoveAll(fields, map[name := 0], [name]) == [fields[0], fields[2], fields[3]]
  {
    assert Remove(fields, name, 0, 1) == [fields[0]] && Remove(fields, name, 0, 2) == [fields[0]];
    assert Remove(fields, name, 0, 3) == [fields[0], fields[2]];
    var kept := Remove(fields, name, 0, 4);
    assert [name][1..] == [] && RemoveAll(kept, map[name := 0], []) == kept;
  }

  const MixedKept := ["\r"] + (["\r"] + ["C"])

  lemma MovedCut(out: string)
    requires out == Join(MixedKept, Lf) + BlankLf + ""
    ensures CutMessage(out) == Some(Split3("", Blank, "C\n\n"))
  {
    JoinTwo("\r", ["C"]);
    JoinTwo("\r", ["\r"] + ["C"]);
    assert out == "\r\n\r\nC\n\n";
    BlankCrlfAt(out, 0);
    assert Index(out, Blank) == 0 && out[..0] == "" && out[4..] == "C\n\n";
  }

  lemma Applied(
    data: string, header: string, body: string, remove: map<string, int>, order: seq<string>, kept: seq<string>)
    requires LfMessage(data, header, body) && forall k :: k in order ==> k in remove
    requires RemoveAll(Fields(header, Lf), remove, order) == kept
    ensures Apply(data, Verdict(remove, []), order) == Some(Join(kept, Lf) + BlankLf + body)
  {
  }

  /** With one the body can move: taking a field out from between two lines that
      end in a carriage return makes a CRLF blank line inside the header. */
  lemma {:induction false} BodyMovesWithCarriageReturns() returns (out: string)
    ensures LfMessage(Mixed, MixedHeader, "")
    ensures Apply(Mixed, Verdict(map["B" := 0], []), ["B"]) == Some(out)
    ensures CutMessage(out) == Some(Split3("", Blank, "C\n\n"))
  {
    out := Join(MixedKept, Lf) + BlankLf + "";
    MixedIsCut();
    FieldsOfMixed();
    RemovedFromMixed();
    Applied(Mixed, MixedHeader, "", map["B" := 0], ["B"], MixedKept);
    MovedCut(out);
  }
}
