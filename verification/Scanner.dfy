/** Header additions of the content scanner: ordering, names, values and folding. */
module Scanner {
  import opened Text
  import opened Headers
  import opened HeaderShape
  import opened HeaderBody
  import Lfs = HeaderBodyLf

  /** The JSON forms an addition may take; null decodes like the empty string. */
  datatype Value = Str(s: string) | Null | List(items: seq<Value>) | Item(value: string, order: int) | Other

  // ---------- folding ----------

  /** Only folds: no carriage return or NUL, and a space or tab after each break. */
  predicate Folded(n: string) {
    forall i :: 0 <= i < |n| ==> FoldedAt(n, i)
  }

  predicate FoldedAt(n: string, i: nat)
    requires i < |n|
  {
    n[i] != '\r' && n[i] != '\0' && (n[i] == '\n' ==> i + 1 < |n| && FoldByte(n[i + 1]))
  }

  method CheckFolding(n: string) returns (ok: bool)
    ensures ok <==> Folded(n)
  {
    for i := 0 to |n|
      invariant forall k :: 0 <= k < i ==> FoldedAt(n, k)
    {
      var ch := n[i];
      if ch == '\r' || ch == '\0' || (ch == '\n' && (i + 1 == |n| || (n[i + 1] != ' ' && n[i + 1] != '\t'))) {
        assert !FoldedAt(n, i);
        return false;
      }
    }
    return true;
  }

  function Normalize(value: string): string {
    ReplaceAll(value, "\r\n", "\n")
  }

  function Expand(n: string): string {
    ReplaceAll(n, "\n", "\r\n")
  }

  lemma FoldedTail(n: string)
    requires n != "" && Folded(n)
    ensures Folded(n[1..])
  {
    forall i | 0 <= i < |n[1..]|
      ensures FoldedAt(n[1..], i)
    {
      assert FoldedAt(n, i + 1);
    }
  }

  /** A checked value, written back with CRLF, has no line break that is not a
      fold, whichever line end a reader looks for. */
  lemma {:induction false} ExpandIsSoft(eol: string, n: string)
    requires LineEnd(eol) && Folded(n)
    ensures Soft(eol, Expand(n))
    ensures n != "" && n[0] != '\n' ==> Expand(n) != "" && Expand(n)[0] == n[0]
    decreases |n|
  {
    if n != "" {
      FoldedTail(n);
      ExpandIsSoft(eol, n[1..]);
      var rest, s := Expand(n[1..]), Expand(n);
      assert FoldedAt(n, 0);
      if n[0] == '\n' {
        assert s == "\r\n" + rest;
        assert n[1..][0] == n[1];
      }
      forall i: nat | At(s, eol, i)
        ensures i + |eol| < |s| && FoldByte(s[i + |eol|])
      {
        EolAt(eol, s, i);
        var skip := |s| - |rest|;
        if i >= skip { EolAt(eol, rest, i - skip); }
      }
    }
  }

  // ---------- values ----------

  /** The values of one name in order, or None for a malformed or empty entry. */
  function Flatten(v: Value): Option<seq<Header>>
    decreases v, 1
  {
    match v
    case Str(s) => Some([Header("", s, 0)])
    case Null => Some([Header("", "", 0)])
    case List(items) => FlattenAll(items)
    case Item(value, order) => if value == "" || order < 0 then None else Some([Header("", value, order)])
    case Other => None
  }

  function FlattenAll(items: seq<Value>): Option<seq<Header>>
    decreases items, 0
  {
    if items == [] then Some([])
    else
      var head := Flatten(items[0]);
      var tail := FlattenAll(items[1..]);
      if head.None? || tail.None? then None else Some(head.value + tail.value)
  }

  lemma {:induction false} FlattenOrders(v: Value)
    ensures Flatten(v).Some? ==> forall h :: h in Flatten(v).value ==> h.order >= 0
    decreases v, 1
  {
    match v
    case List(items) => FlattenAllOrders(items);
    case _ =>
  }

  lemma {:induction false} FlattenAllOrders(items: seq<Value>)
    ensures FlattenAll(items).Some? ==> forall h :: h in FlattenAll(items).value ==> h.order >= 0
    decreases items, 0
  {
    if items != [] {
      FlattenOrders(items[0]);
      FlattenAllOrders(items[1..]);
    }
  }

  predicate NameOk(name: string) {
    name != "" && !ContainsAny(name, ": \t\r\n")
  }

  /** The first `n` values of a name, checked and written out. */
  function CheckedValues(name: string, values: seq<Header>, n: nat): Option<seq<Header>>
    requires n <= |values|
  {
    if n == 0 then Some([])
    else
      var before := CheckedValues(name, values, n - 1);
      var normal := Normalize(values[n - 1].value);
      if before.None? || !Folded(normal) then None
      else Some(before.value + [Header(name, Expand(normal), values[n - 1].order)])
  }

  /** The additions of the first `n` names. */
  function Additions(keys: seq<string>, additions: map<string, Value>, n: nat): Option<seq<Header>>
    requires n <= |keys| && forall k :: k in keys ==> k in additions
  {
    if n == 0 then Some([])
    else
      var before := Additions(keys, additions, n - 1);
      var key := keys[n - 1];
      assert key in keys;
      if before.None? || !NameOk(key) || Flatten(additions[key]).None? then None
      else
        var values := Flatten(additions[key]).value;
        var checked := CheckedValues(key, values, |values|);
        if checked.None? then None else Some(before.value + checked.value)
  }

  method CollectAdditions(keys: seq<string>, additions: map<string, Value>) returns (r: Option<seq<Header>>)
    requires forall k :: k in keys ==> k in additions
    ensures r == Additions(keys, additions, |keys|)
  {
    var headers: seq<Header> := [];
    for i := 0 to |keys|
      invariant Additions(keys, additions, i) == Some(headers)
    {
      var name := keys[i];
      var more := CheckName(name, additions[name]);
      if more.None? {
        StaysFailed(keys, additions, i + 1, |keys|);
        return None;
      }
      headers := headers + more.value;
    }
    return Some(headers);
  }

  method CheckName(name: string, value: Value) returns (r: Option<seq<Header>>)
    ensures r == if !NameOk(name) || Flatten(value).None? then None
                 else CheckedValues(name, Flatten(value).value, |Flatten(value).value|)
  {
    if name == "" || ContainsAny(name, ": \t\r\n") {
      return None;
    }
    var flat := Flatten(value);
    if flat.None? {
      return None;
    }
    var values := flat.value;
    var headers: seq<Header> := [];
    for i := 0 to |values|
      invariant CheckedValues(name, values, i) == Some(headers)
    {
      var normalized := Normalize(values[i].value);
      var ok := CheckFolding(normalized);
      if !ok {
        ValuesStayFailed(name, values, i + 1, |values|);
        return None;
      }
      headers := headers + [Header(name, Expand(normalized), values[i].order)];
    }
    return Some(headers);
  }

  lemma {:induction false} ValuesStayFailed(name: string, values: seq<Header>, i: nat, n: nat)
    requires i <= n <= |values| && CheckedValues(name, values, i).None?
    ensures CheckedValues(name, values, n).None?
  {
    if i < n { ValuesStayFailed(name, values, i, n - 1); }
  }

  lemma {:induction false} StaysFailed(keys: seq<string>, additions: map<string, Value>, i: nat, n: nat)
    requires i <= n <= |keys| && (forall k :: k in keys ==> k in additions) && Additions(keys, additions, i).None?
    ensures Additions(keys, additions, n).None?
  {
    if i < n { StaysFailed(keys, additions, i, n - 1); }
  }

  lemma {:induction false} ValuesAreChecked(name: string, values: seq<Header>, n: nat)
    requires n <= |values| && NameOk(name) && (forall h :: h in values ==> h.order >= 0)
    requires CheckedValues(name, values, n).Some?
    ensures forall h :: h in CheckedValues(name, values, n).value ==> Checked(Crlf, h) && Checked(Lf, h)
  {
    if n > 0 {
      ValuesAreChecked(name, values, n - 1);
      ExpandIsSoft(Crlf, Normalize(values[n - 1].value));
      ExpandIsSoft(Lf, Normalize(values[n - 1].value));
      assert values[n - 1] in values;
    }
  }

  /** Everything the scanner step hands on may be inserted without harm. */
  lemma {:induction false} AdditionsAreChecked(keys: seq<string>, additions: map<string, Value>, n: nat)
    requires n <= |keys| && (forall k :: k in keys ==> k in additions) && Additions(keys, additions, n).Some?
    ensures forall h :: h in Additions(keys, additions, n).value ==> Checked(Crlf, h) && Checked(Lf, h)
  {
    if n > 0 {
      AdditionsAreChecked(keys, additions, n - 1);
      var key := keys[n - 1];
      assert key in keys;
      FlattenOrders(additions[key]);
      var values := Flatten(additions[key]).value;
      ValuesAreChecked(key, values, |values|);
    }
  }

  /** From scanner reply to rewritten message: a message whose header block does
      not start with an empty line keeps its body byte for byte. */
  lemma {:induction false} ScannedMessageKeepsBody(
    keys: seq<string>, additions: map<string, Value>, data: string, header: string, body: string, v: Verdict,
    order: seq<string>)
    requires forall k :: k in keys ==> k in additions
    requires Additions(keys, additions, |keys|) == Some(v.add)
    requires CrlfMessage(data, header, body) && header != "" && !HasPrefix(header, Crlf)
    requires forall k :: k in order ==> k in v.remove
    ensures Apply(data, v, order).Some?
    ensures var cut := CutMessage(Apply(data, v, order).value);
            cut.Some? && cut.value.sep == Blank && cut.value.body == body
  {
    AdditionsAreChecked(keys, additions, |keys|);
    BodyIsPreserved(data, header, body, v, order);
  }

  /** The same for bare line feeds, when the header block holds no carriage return. */
  lemma {:induction false} ScannedLfMessageKeepsBody(
    keys: seq<string>, additions: map<string, Value>, data: string, header: string, body: string, v: Verdict,
    order: seq<string>)
    requires forall k :: k in keys ==> k in additions
    requires Additions(keys, additions, |keys|) == Some(v.add)
    requires Lfs.LfMessage(data, header, body) && '\r' !in header && !Empty(Lf, header)
    requires forall k :: k in order ==> k in v.remove
    ensures Apply(data, v, order).Some?
    ensures var cut := CutMessage(Apply(data, v, order).value); cut.Some? && cut.value.body == body
  {
    AdditionsAreChecked(keys, additions, |keys|);
    Lfs.BodyIsPreserved(data, header, body, v, order);
    Lfs.BodyIsPreservedWithoutCr(data, header, body, v, order);
  }

  // ---------- the order of the ARC headers ----------

  const Results := "ARC-Authentication-Results"
  const Signature := "ARC-Message-Signature"
  const Seal := "ARC-Seal"

  function Without(keys: seq<string>, name: string): seq<string> {
    if keys == [] then [] else (if EqualFold(keys[0], name) then [] else [keys[0]]) + Without(keys[1..], name)
  }

  function Only(keys: seq<string>, name: string): seq<string> {
    if keys == [] then [] else (if EqualFold(keys[0], name) then [keys[0]] else []) + Only(keys[1..], name)
  }

  /** The first key that is the name, moved to the end. */
  function MoveToEnd(keys: seq<string>, name: string, i: nat): seq<string>
    requires i <= |keys|
    decreases |keys| - i
  {
    if i == |keys| then keys
    else if EqualFold(keys[i], name) then keys[..i] + keys[i + 1..] + [keys[i]]
    else MoveToEnd(keys, name, i + 1)
  }

  function Reordered(keys: seq<string>): seq<string> {
    var a := MoveToEnd(keys, Results, 0);
    var b := MoveToEnd(a, Signature, 0);
    MoveToEnd(b, Seal, 0)
  }

  method Reorder(sorted: seq<string>) returns (keys: seq<string>)
    ensures keys == Reordered(sorted)
  {
    keys := sorted;
    var names := [Results, Signature, Seal];
    ghost var moved := MoveToEnd(sorted, Results, 0);
    ghost var stages := [sorted, moved, MoveToEnd(moved, Signature, 0), Reordered(sorted)];
    for n := 0 to 3
      invariant keys == stages[n]
    {
      keys := MoveOne(keys, names[n]);
    }
  }

  method MoveOne(keys: seq<string>, name: string) returns (moved: seq<string>)
    ensures moved == MoveToEnd(keys, name, 0)
  {
    for i := 0 to |keys|
      invariant MoveToEnd(keys, name, 0) == MoveToEnd(keys, name, i)
    {
      if EqualFold(keys[i], name) {
        return keys[..i] + keys[i + 1..] + [keys[i]];
      }
    }
    return keys;
  }

  lemma {:induction false} WithoutAppend(a: seq<string>, b: seq<string>, name: string)
    ensures Without(a + b, name) == Without(a, name) + Without(b, name)
    ensures Only(a + b, name) == Only(a, name) + Only(b, name)
  {
    WithoutOver(a, b, name);
    OnlyOver(a, b, name);
  }

  lemma {:induction false} WithoutOver(a: seq<string>, b: seq<string>, name: string)
    ensures Without(a + b, name) == Without(a, name) + Without(b, name)
  {
    if a == [] {
      assert a + b == b;
    } else {
      assert (a + b)[0] == a[0] && (a + b)[1..] == a[1..] + b;
      WithoutOver(a[1..], b, name);
    }
  }

  lemma {:induction false} OnlyOver(a: seq<string>, b: seq<string>, name: string)
    ensures Only(a + b, name) == Only(a, name) + Only(b, name)
  {
    if a == [] {
      assert a + b == b;
    } else {
      assert (a + b)[0] == a[0] && (a + b)[1..] == a[1..] + b;
      OnlyOver(a[1..], b, name);
    }
  }

  lemma {:induction false} NoneFound(keys: seq<string>, name: string)
    requires forall k :: k in keys ==> !EqualFold(k, name)
    ensures Without(keys, name) == keys && Only(keys, name) == []
  {
    if keys != [] {
      assert keys[0] in keys;
      NoneFound(keys[1..], name);
    }
  }

  lemma {:induction false} OnlyEmpty(keys: seq<string>, name: string)
    requires Only(keys, name) == []
    ensures forall k :: k in keys ==> !EqualFold(k, name)
  {
    if keys != [] { OnlyEmpty(keys[1..], name); }
  }

  lemma {:induction false} OneFound(a: seq<string>, k: string, b: seq<string>, name: string)
    requires EqualFold(k, name) && |Only(a + ([k] + b), name)| <= 1 && forall x :: x in a ==> !EqualFold(x, name)
    ensures Without(a + ([k] + b), name) == a + b && Only(a + ([k] + b), name) == [k]
  {
    NoneFound(a, name);
    WithoutAppend(a, [k] + b, name);
    HeadFound(k, b, name);
    assert |[k] + Only(b, name)| == 1 + |Only(b, name)|;
    OnlyEmpty(b, name);
    NoneFound(b, name);
    assert [] + ([k] + []) == [k];
  }

  lemma HeadFound(k: string, b: seq<string>, name: string)
    requires EqualFold(k, name)
    ensures Only([k] + b, name) == [k] + Only(b, name) && Without([k] + b, name) == Without(b, name)
  {
    assert ([k] + b)[1..] == b;
  }

  /** With at most one key of the name, moving it is taking it out and appending it. */
  lemma {:induction false} MoveMeans(keys: seq<string>, name: string, i: nat)
    requires i <= |keys| && |Only(keys, name)| <= 1
    requires forall k :: 0 <= k < i ==> !EqualFold(keys[k], name)
    ensures MoveToEnd(keys, name, i) == Without(keys, name) + Only(keys, name)
    decreases |keys| - i
  {
    if i == |keys| {
      NoneFound(keys, name);
    } else if EqualFold(keys[i], name) {
      assert keys == keys[..i] + ([keys[i]] + keys[i + 1..]);
      OneFound(keys[..i], keys[i], keys[i + 1..], name);
    } else {
      MoveMeans(keys, name, i + 1);
    }
  }

  /** Sorted keys without case variants come out as the other names in their order,
      then results, message signature and seal. */
  lemma {:induction false} ArcNamesLast(keys: seq<string>)
    requires |Only(keys, Results)| <= 1 && |Only(keys, Signature)| <= 1 && |Only(keys, Seal)| <= 1
    ensures Reordered(keys) ==
              Without(Without(Without(keys, Results), Signature), Seal) + Only(keys, Results) + Only(keys, Signature)
                  + Only(keys, Seal)
  {
    var r, g, e := Only(keys, Results), Only(keys, Signature), Only(keys, Seal);
    ArcNamesDiffer();
    MoveMeans(keys, Results, 0);
    var a := Without(keys, Results);
    Cross(keys, Results, Signature);
    Cross(keys, Results, Seal);
    WithoutAppend(a, r, Signature);
    MoveMeans(a + r, Signature, 0);
    assert MoveToEnd(a + r, Signature, 0) == Without(a, Signature) + r + g;
    var b := Without(a, Signature);
    Cross(a, Signature, Seal);
    Cross(keys, Signature, Seal);
    WithoutAppend(b + r, g, Seal);
    WithoutAppend(b, r, Seal);
    assert Only(b + r + g, Seal) == e;
    MoveMeans(b + r + g, Seal, 0);
  }

  lemma ArcNamesDiffer()
    ensures !EqualFold(Results, Signature) && !EqualFold(Results, Seal) && !EqualFold(Signature, Seal)
  {
    assert |Results| == 26 && |Signature| == 21 && |Seal| == 8;
    assert |Lower(Results)| == 26 && |Lower(Signature)| == 21 && |Lower(Seal)| == 8;
  }

  /** Taking one name out does not touch another. */
  lemma {:induction false} Cross(keys: seq<string>, a: string, b: string)
    requires !EqualFold(a, b)
    ensures Only(Without(keys, a), b) == Only(keys, b)
    ensures Without(Only(keys, a), b) == Only(keys, a) && Only(Only(keys, a), b) == []
  {
    if keys != [] {
      Cross(keys[1..], a, b);
      var head := if EqualFold(keys[0], a) then [] else [keys[0]];
      WithoutAppend(head, Without(keys[1..], a), b);
      var mine := if EqualFold(keys[0], a) then [keys[0]] else [];
      WithoutAppend(mine, Only(keys[1..], a), b);
    }
  }

  lemma {:induction false} InsertAppend(fields: seq<string>, a: seq<Header>, h: Header)
    requires InsertAll(fields, a, |a|).Some? && h.order == 0
    ensures InsertAll(fields, a + [h], |a| + 1) == Some([Render(h)] + InsertAll(fields, a, |a|).value)
  {
    InsertPrefix(fields, a, a + [h], |a|);
    var before := InsertAll(fields, a, |a|).value;
    assert InsertAt(before, h) == [Render(h)] + before;
    assert (a + [h])[|a|] == h;
  }

  lemma {:induction false} InsertPrefix(fields: seq<string>, a: seq<Header>, b: seq<Header>, n: nat)
    requires n <= |a| && n <= |b| && a[..n] == b[..n]
    ensures InsertAll(fields, a, n) == InsertAll(fields, b, n)
  {
    if n > 0 {
      assert a[n - 1] == a[..n][n - 1] && b[n - 1] == b[..n][n - 1];
      assert a[..n - 1] == a[..n][..n - 1] && b[..n - 1] == b[..n][..n - 1];
      InsertPrefix(fields, a, b, n - 1);
    }
  }

  /** Inserting at the top in that order puts seal, signature and results first. */
  lemma {:induction false} SealComesFirst(
    fields: seq<string>, others: seq<Header>, results: Header, signature: Header, seal: Header)
    requires InsertAll(fields, others, |others|).Some?
    requires results.order == 0 && signature.order == 0 && seal.order == 0
    ensures var add := others + [results, signature, seal];
            InsertAll(fields, add, |add|) ==
              Some([Render(seal), Render(signature), Render(results)] + InsertAll(fields, others, |others|).value)
  {
    InsertAppend(fields, others, results);
    InsertAppend(fields, others + [results], signature);
    InsertAppend(fields, others + [results] + [signature], seal);
    assert others + [results] + [signature] + [seal] == others + [results, signature, seal];
    var base := InsertAll(fields, others, |others|).value;
    assert [Render(seal)] + ([Render(signature)] + ([Render(results)] + base))
        == [Render(seal), Render(signature), Render(results)] + base;
  }
}
