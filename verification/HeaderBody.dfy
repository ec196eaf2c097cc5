/** When header rewriting leaves the body where a reader finds it: messages with
    CRLF line ends. */
module HeaderBody {
  import opened Text
  import opened Headers
  import opened HeaderShape

  // ---------- header blocks without a blank line ----------

  /** No blank line inside, and none completed by a following line break. */
  ghost predicate CleanBlock(j: string) {
    (forall i: nat :: !At(j, Blank, i)) && !HasSuffix(j, Crlf)
  }

  lemma CrlfAt(s: string, i: nat)
    ensures At(s, Crlf, i) <==> i + 2 <= |s| && s[i] == '\r' && s[i + 1] == '\n'
  {
    EolAt(Crlf, s, i);
  }

  lemma BlankAt(s: string, i: nat)
    ensures At(s, Blank, i) <==> At(s, Crlf, i) && At(s, Crlf, i + 2)
  {
    CrlfAt(s, i);
    CrlfAt(s, i + 2);
    if i + 4 <= |s| { assert s[i..i + 4] == [s[i], s[i + 1], s[i + 2], s[i + 3]]; }
  }

  lemma CrlfSuffix(s: string)
    ensures HasSuffix(s, Crlf) <==> |s| >= 2 && At(s, Crlf, |s| - 2)
  {
  }

  lemma SoftIsClean(f: string)
    requires Soft(Crlf, f)
    ensures CleanBlock(f)
  {
    CrlfSuffix(f);
    forall i: nat
      ensures !At(f, Blank, i)
    {
      BlankAt(f, i);
      CrlfAt(f, i + 2);
    }
  }

  /** A field put in front of a clean block that starts with text. */
  lemma {:induction false} ConsIsClean(f: string, j: string)
    requires Soft(Crlf, f) && CleanBlock(j) && j != "" && !HasPrefix(j, Crlf)
    ensures CleanBlock(f + Crlf + j)
  {
    var s := f + Crlf + j;
    CrlfSuffix(s);
    CrlfSuffix(j);
    CrlfAt(s, |s| - 2);
    if |j| >= 2 { CrlfAt(j, |j| - 2); }
    forall i: nat
      ensures !At(s, Blank, i)
    {
      BlankAt(s, i);
      CrlfAt(s, i);
      CrlfAt(s, i + 2);
      CrlfAt(f, i);
      CrlfAt(j, 0);
      if i >= |f| + 2 { BlankAt(j, i - |f| - 2); CrlfAt(j, i - |f| - 2); CrlfAt(j, i - |f|); }
    }
  }

  lemma {:induction false} JoinTame(fields: seq<string>)
    requires forall f :: f in fields ==> Tame(Crlf, f)
    ensures CleanBlock(Join(fields, Crlf))
    ensures fields != [] ==> Join(fields, Crlf) != "" && !HasPrefix(Join(fields, Crlf), Crlf)
  {
    if |fields| == 0 {
      SoftIsClean("");
    } else {
      assert fields[0] in fields;
      if |fields| == 1 {
        SoftIsClean(fields[0]);
      } else {
        JoinTame(fields[1..]);
        var j := Join(fields[1..], Crlf);
        ConsIsClean(fields[0], j);
        var s := fields[0] + Crlf + j;
        CrlfAt(s, 0);
        CrlfAt(fields[0], 0);
      }
    }
  }

  /** The boundary of a clean block is where it was put. */
  lemma {:induction false} BoundaryOfClean(j: string, body: string)
    requires CleanBlock(j)
    ensures Index(j + Blank + body, Blank) == |j|
  {
    var s := j + Blank + body;
    assert s[|j|..|j| + 4] == Blank;
    assert At(s, Blank, |j|);
    forall i: nat | i < |j|
      ensures !At(s, Blank, i)
    {
      BlankAt(s, i);
      CrlfAt(s, i);
      CrlfAt(s, i + 2);
      BlankAt(j, i);
      CrlfAt(j, i);
      CrlfAt(j, i + 2);
      CrlfSuffix(j);
    }
  }

  // ---------- the lines of a header block ----------

  lemma {:induction false} LinesOfClean(h: string)
    requires CleanBlock(h)
    ensures var lines := Split(h, Crlf);
            PlainLines(Crlf, lines) && (lines[0] == "" <==> Empty(Crlf, h))
    decreases |h|
  {
    var i := Index(h, Crlf);
    if i >= 0 {
      var line, rest := h[..i], h[i + 2..];
      CrlfAt(h, i);
      CrlfAt(h, 0);
      assert NoBreak(Crlf, line) by {
        forall k: nat
          ensures !At(line, Crlf, k)
        {
          CrlfAt(line, k);
          CrlfAt(h, k);
        }
      }
      CrlfSuffix(h);
      CrlfSuffix(rest);
      assert CleanBlock(rest) by {
        forall k: nat
          ensures !At(rest, Blank, k)
        {
          BlankAt(rest, k);
          BlankAt(h, i + 2 + k);
          CrlfAt(rest, k); CrlfAt(rest, k + 2); CrlfAt(h, i + 2 + k); CrlfAt(h, i + 4 + k);
        }
        if |rest| >= 2 { CrlfAt(rest, |rest| - 2); CrlfAt(h, |h| - 2); }
      }
      assert rest != "" && !HasPrefix(rest, Crlf) by {
        BlankAt(h, i);
        CrlfAt(h, i + 2);
      }
      LinesOfClean(rest);
    }
  }

  // ---------- the boundary of the result ----------

  lemma {:induction false} BoundaryOfShape(fields: seq<string>, blank: int, body: string)
    requires ShapeAt(Crlf, fields, blank) && blank >= -1
    ensures var j := Join(fields, Crlf);
            0 <= Index(j + Blank + body, Blank) <= |j| && (Index(j + Blank + body, Blank) == |j| <==> blank <= 0)
  {
    var j := Join(fields, Crlf);
    var s := j + Blank + body;
    if blank < 0 {
      forall f | f in fields
        ensures Tame(Crlf, f)
      {
        var k :| 0 <= k < |fields| && fields[k] == f;
      }
      JoinTame(fields);
      BoundaryOfClean(j, body);
    } else if blank == 0 {
      FirstBlankIsClean(fields);
      BoundaryOfClean(j, body);
    } else {
      BlankInside(fields, blank, body);
    }
  }

  lemma {:induction false} FirstBlankIsClean(fields: seq<string>)
    requires ShapeAt(Crlf, fields, 0)
    ensures CleanBlock(Join(fields, Crlf))
  {
    SoftIsClean(fields[0]);
    if |fields| > 1 {
      forall f | f in fields[1..]
        ensures Tame(Crlf, f)
      {
        var k :| 0 <= k < |fields[1..]| && fields[1..][k] == f;
        assert fields[k + 1] == f;
      }
      JoinTame(fields[1..]);
      ConsIsClean(fields[0], Join(fields[1..], Crlf));
    }
  }

  /** A blank field behind another one ends the header early. */
  lemma {:induction false} BlankInside(fields: seq<string>, blank: nat, body: string)
    requires ShapeAt(Crlf, fields, blank) && blank > 0
    ensures 0 <= Index(Join(fields, Crlf) + Blank + body, Blank) < |Join(fields, Crlf)|
  {
    var a, b := fields[..blank], fields[blank..];
    assert fields == a + b;
    JoinAppend(a, b, Crlf);
    var x, y := Join(a, Crlf), Join(b, Crlf);
    var s := x + Crlf + y + Blank + body;
    assert y == "" || HasPrefix(y, Crlf) by {
      assert b[0] == fields[blank];
      CrlfAt(b[0], 0);
      CrlfAt(y, 0);
    }
    CrlfAt(s, |x|);
    CrlfAt(s, |x| + 2);
    if y != "" { CrlfAt(y, 0); }
    BlankAt(s, |x|);
    assert At(s, Blank, |x|);
  }

  /** A message with CRLF line ends, cut where its header ends. */
  ghost predicate CrlfMessage(data: string, header: string, body: string) {
    CutMessage(data) == Some(Split3(header, Blank, body))
  }

  lemma {:induction false} HeaderIsClean(data: string, header: string, body: string)
    requires CrlfMessage(data, header, body)
    ensures CleanBlock(header)
  {
    var n := Index(data, Blank);
    assert n >= 0;
    CrlfSuffix(header);
    forall i: nat
      ensures !At(header, Blank, i)
    {
      BlankAt(header, i);
      BlankAt(data, i);
      CrlfAt(header, i); CrlfAt(header, i + 2); CrlfAt(data, i); CrlfAt(data, i + 2);
    }
    if n >= 2 {
      BlankAt(data, n - 2);
      BlankAt(data, n);
      CrlfAt(header, n - 2); CrlfAt(data, n - 2); CrlfAt(data, n);
    }
  }

  /** Rewriting a CRLF message with checked additions, whatever is removed: cutting
      the result at its first blank line gives back the body byte for byte,
      exactly unless a field that starts with an empty line is still first after
      the removals and something is inserted before it. Such a field can only be
      there when the header block itself starts with an empty line. */
  lemma {:induction false} BodyIsPreserved(data: string, header: string, body: string, v: Verdict, order: seq<string>)
    requires CrlfMessage(data, header, body)
    requires (forall k :: k in order ==> k in v.remove) && forall h :: h in v.add ==> Checked(Crlf, h)
    ensures Apply(data, v, order).Some?
    ensures var out, kept := Apply(data, v, order).value, RemoveAll(Fields(header, Crlf), v.remove, order);
            && CutMessage(out).Some? && CutMessage(out).value.sep == Blank
            && (CutMessage(out).value.body == body <==> !(BlankFirst(Crlf, kept) && InsertsAtTop(v.add)))
            && (BlankFirst(Crlf, kept) ==> Empty(Crlf, header))
  {
    var lines := Split(header, Crlf);
    HeaderIsClean(data, header, body);
    LinesOfClean(header);
    UnfoldShape(Crlf, lines, |lines|);
    var kept := RemoveAll(Fields(header, Crlf), v.remove, order);
    RemoveAllShape(Crlf, Fields(header, Crlf), v.remove, order);
    var blank := Rewritten(Crlf, kept, v.add);
    var fields := InsertAll(kept, v.add, |v.add|).value;
    BoundaryOfShape(fields, blank, body);
    RestAfterBoundary(Join(fields, Crlf), body);
  }

  /** With removal names that hold no line break, the condition is one on the
      message: the header block starts with an empty line. */
  lemma {:induction false} BodyIsPreservedForPlainNames(
    data: string, header: string, body: string, v: Verdict, order: seq<string>)
    requires CrlfMessage(data, header, body)
    requires (forall k :: k in order ==> k in v.remove && NoBreaks(k)) && forall h :: h in v.add ==> Checked(Crlf, h)
    ensures Apply(data, v, order).Some?
    ensures var cut := CutMessage(Apply(data, v, order).value);
            cut.Some? && (cut.value.body == body <==> !(Empty(Crlf, header) && InsertsAtTop(v.add)))
  {
    BodyIsPreserved(data, header, body, v, order);
    var lines := Split(header, Crlf);
    HeaderIsClean(data, header, body);
    LinesOfClean(header);
    UnfoldShape(Crlf, lines, |lines|);
    if Empty(Crlf, header) { BlankFieldStays(Crlf, Fields(header, Crlf), v.remove, order); }
  }

  lemma RestAfterBoundary(j: string, body: string)
    requires 0 <= Index(j + Blank + body, Blank) <= |j|
    ensures var s := j + Blank + body;
            CutMessage(s).Some? && CutMessage(s).value.sep == Blank
            && (CutMessage(s).value.body == body <==> Index(s, Blank) == |j|)
  {
    var s := j + Blank + body;
    assert s[|j| + 4..] == body;
  }
}
