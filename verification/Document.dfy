/** Setting one value of a JSON document named by an RFC 6901 path. */
module Document {
  import opened Text

  /** Scalars keep their source token; object members have distinct names. */
  datatype Json = Scalar(token: string) | Object(members: map<string, Json>) | Array(items: seq<Json>)

  datatype Problem = NoParent | BadIndex | NotAContainer

  datatype Result<T> = Done(value: T) | Refused(problem: Problem)

  // ---------- path tokens (section 4 of RFC 6901) ----------

  function Decode(token: string): string {
    ReplaceAll(ReplaceAll(token, "~1", "/"), "~0", "~")
  }

  function Encode(key: string): string {
    ReplaceAll(ReplaceAll(key, "~", "~0"), "/", "~1")
  }

  /** The escaping of one key, byte by byte. */
  function Escaped(key: string): string {
    if key == "" then ""
    else (if key[0] == '~' then "~0" else if key[0] == '/' then "~1" else [key[0]]) + Escaped(key[1..])
  }

  function Tildes(key: string): string {
    if key == "" then "" else (if key[0] == '~' then "~0" else [key[0]]) + Tildes(key[1..])
  }

  lemma {:induction false} EncodeIsEscaped(key: string)
    ensures ReplaceAll(key, "~", "~0") == Tildes(key)
    ensures ReplaceAll(Tildes(key), "/", "~1") == Escaped(key)
  {
    if key != "" {
      var c, rest := key[0], key[1..];
      EncodeIsEscaped(rest);
      assert key == [c] + rest;
      if c == '~' {
        ReplaceMatch("~", rest, "~0");
        TwoSkips('~', '0', Tildes(rest), "/", "~1");
      } else {
        ReplaceSkip(c, rest, "~", "~0");
        if c == '/' { ReplaceMatch("/", Tildes(rest), "~1"); } else { ReplaceSkip(c, Tildes(rest), "/", "~1"); }
      }
    }
  }

  lemma TwoSkips(c: char, d: char, rest: string, from: string, into: string)
    requires from != "" && d != from[0] && (c != from[0] || (|from| > 1 && d != from[1]))
    ensures ReplaceAll([c, d] + rest, from, into) == [c, d] + ReplaceAll(rest, from, into)
  {
    ReplaceSkip(c, [d] + rest, from, into);
    ReplaceSkip(d, rest, from, into);
    assert [c] + ([d] + rest) == [c, d] + rest;
    var r := ReplaceAll(rest, from, into);
    assert [c] + ([d] + r) == [c, d] + r;
  }

  lemma {:induction false} DecodeSlashes(key: string)
    ensures ReplaceAll(Escaped(key), "~1", "/") == Tildes(key)
  {
    if key != "" {
      var c, e := key[0], Escaped(key[1..]);
      DecodeSlashes(key[1..]);
      if c == '~' {
        TwoSkips('~', '0', e, "~1", "/");
      } else if c == '/' {
        ReplaceMatch("~1", e, "/");
      } else {
        ReplaceSkip(c, e, "~1", "/");
      }
    }
  }

  lemma {:induction false} DecodeTildes(key: string)
    ensures ReplaceAll(Tildes(key), "~0", "~") == key
  {
    if key != "" {
      var c, t := key[0], Tildes(key[1..]);
      DecodeTildes(key[1..]);
      if c == '~' { ReplaceMatch("~0", t, "~"); } else { ReplaceSkip(c, t, "~0", "~"); }
      assert key == [c] + key[1..];
    }
  }

  lemma {:induction false} EscapedHasNoSlash(key: string)
    ensures '/' !in Escaped(key)
  {
    if key != "" { EscapedHasNoSlash(key[1..]); }
  }

  /** Decoding inverts the escaping, for every key. */
  lemma {:induction false} TokenRoundTrip(key: string)
    ensures Decode(Encode(key)) == key && '/' !in Encode(key)
  {
    EncodeIsEscaped(key);
    DecodeSlashes(key);
    DecodeTildes(key);
    EscapedHasNoSlash(key);
  }

  function Tokens(keys: seq<string>): seq<string> {
    seq(|keys|, i requires 0 <= i < |keys| => Encode(keys[i]))
  }

  /** The path of a list of keys, and its tokens as the setter reads them. */
  function Path(keys: seq<string>): string {
    "/" + Join(Tokens(keys), "/")
  }

  function Parts(path: string): seq<string>
    requires HasPrefix(path, "/")
  {
    Split(path[1..], "/")
  }

  lemma {:induction false} PathRoundTrip(keys: seq<string>)
    requires keys != []
    ensures |Parts(Path(keys))| == |keys| && forall i :: 0 <= i < |keys| ==> Decode(Parts(Path(keys))[i]) == keys[i]
  {
    forall t | t in Tokens(keys)
      ensures '/' !in t
    {
      var i :| 0 <= i < |keys| && Tokens(keys)[i] == t;
      TokenRoundTrip(keys[i]);
    }
    SplitJoin(Tokens(keys), '/');
    assert Path(keys)[1..] == Join(Tokens(keys), "/");
    forall i | 0 <= i < |keys|
      ensures Decode(Parts(Path(keys))[i]) == keys[i]
    {
      TokenRoundTrip(keys[i]);
    }
  }

  // ---------- array indexes ----------

  predicate AllDigits(s: string) {
    forall i :: 0 <= i < |s| ==> '0' <= s[i] <= '9'
  }

  function Number(s: string): nat
    requires AllDigits(s)
  {
    if s == "" then 0 else 10 * Number(s[..|s| - 1]) + (s[|s| - 1] - '0') as nat
  }

  /** A decimal integer with an optional sign. */
  function Atoi(s: string): Option<int> {
    var digits := if s != "" && (s[0] == '+' || s[0] == '-') then s[1..] else s;
    if digits == "" || !AllDigits(digits) then None
    else if s[0] == '-' then Some(0 - Number(digits) as int)
    else Some(Number(digits))
  }

  /** The position a token selects in an array of `n` items, or -1. */
  function Position(token: string, n: nat): (r: int)
    ensures -1 <= r < n
  {
    var i := Atoi(token);
    if i.Some? && 0 <= i.value < n then i.value else -1
  }

  /** The decimal notation of a number. */
  function Decimal(n: nat): (s: string)
    ensures s != "" && AllDigits(s)
  {
    if n < 10 then ['0' + n as char] else Decimal(n / 10) + ['0' + (n % 10) as char]
  }

  lemma {:induction false} NumberOfDecimal(n: nat)
    ensures Number(Decimal(n)) == n
  {
    if n >= 10 {
      NumberOfDecimal(n / 10);
      var s := Decimal(n);
      assert s[..|s| - 1] == Decimal(n / 10) && s[|s| - 1] == '0' + (n % 10) as char;
    } else {
      assert Decimal(n)[..0] == "";
    }
  }

  /** A token in decimal notation selects the item of that number, if there is one;
      with a minus sign it selects nothing but, at zero, the first. */
  lemma {:induction false} DecimalSelects(i: nat, n: nat)
    ensures Position(Decimal(i), n) == if i < n then i else -1
    ensures i > 0 ==> Position("-" + Decimal(i), n) == -1
  {
    NumberOfDecimal(i);
    assert ("-" + Decimal(i))[1..] == Decimal(i);
  }

  // ---------- get and set ----------

  function Get(doc: Json, parts: seq<string>): Option<Json>
    decreases |parts|
  {
    if parts == [] then Some(doc)
    else
      var part := Decode(parts[0]);
      match doc
      case Object(m) => if part in m then Get(m[part], parts[1..]) else None
      case Array(a) => var i := Position(part, |a|); if i >= 0 then Get(a[i], parts[1..]) else None
      case Scalar(_) => None
  }

  function SetJson(doc: Json, parts: seq<string>, value: Json): Result<Json>
    decreases |parts|
  {
    if parts == [] then Done(value)
    else
      var part := Decode(parts[0]);
      match doc
      case Object(m) =>
        if part !in m then (if |parts| > 1 then Refused(NoParent) else Done(Object(m[part := value])))
        else
          var next := SetJson(m[part], parts[1..], value);
          if next.Refused? then next else Done(Object(m[part := next.value]))
      case Array(a) =>
        var i := Position(part, |a|);
        if i < 0 then Refused(BadIndex)
        else
          var next := SetJson(a[i], parts[1..], value);
          if next.Refused? then next else Done(Array(a[i := next.value]))
      case Scalar(_) => Refused(NotAContainer)
  }

  // ---------- the lens laws ----------

  /** What was set is read back. */
  lemma {:induction false} GetAfterSet(doc: Json, parts: seq<string>, value: Json)
    requires SetJson(doc, parts, value).Done?
    ensures Get(SetJson(doc, parts, value).value, parts) == Some(value)
    decreases |parts|
  {
    if parts != [] {
      var part := Decode(parts[0]);
      match doc
      case Object(m) =>
        if part in m { GetAfterSet(m[part], parts[1..], value); }
      case Array(a) => GetAfterSet(a[Position(part, |a|)], parts[1..], value);
    }
  }

  /** Setting what is already there changes nothing. */
  lemma {:induction false} SetWhatIsThere(doc: Json, parts: seq<string>, value: Json)
    requires Get(doc, parts) == Some(value)
    ensures SetJson(doc, parts, value) == Done(doc)
    decreases |parts|
  {
    if parts != [] {
      var part := Decode(parts[0]);
      match doc
      case Object(m) =>
        SetWhatIsThere(m[part], parts[1..], value);
        assert m[part := m[part]] == m;
      case Array(a) =>
        var i := Position(part, |a|);
        SetWhatIsThere(a[i], parts[1..], value);
        assert a[i := a[i]] == a;
    }
  }

  /** The last of two sets of the same path wins. */
  lemma {:induction false} LastSetWins(doc: Json, parts: seq<string>, first: Json, second: Json)
    requires SetJson(doc, parts, first).Done?
    ensures SetJson(SetJson(doc, parts, first).value, parts, second) == SetJson(doc, parts, second)
    decreases |parts|
  {
    if parts != [] {
      var part := Decode(parts[0]);
      match doc
      case Object(m) =>
        if part in m {
          LastSetWins(m[part], parts[1..], first, second);
          var x, y := SetJson(m[part], parts[1..], first).value, SetJson(m[part], parts[1..], second);
          if y.Done? { assert m[part := x][part := y.value] == m[part := y.value]; }
        } else {
          assert m[part := first][part := second] == m[part := second];
        }
      case Array(a) =>
        var i := Position(part, |a|);
        LastSetWins(a[i], parts[1..], first, second);
        var x, y := SetJson(a[i], parts[1..], first).value, SetJson(a[i], parts[1..], second);
        if y.Done? { assert a[i := x][i := y.value] == a[i := y.value]; }
    }
  }

  /** At some common container the two paths select different children. */
  predicate Apart(doc: Json, p: seq<string>, q: seq<string>)
    decreases |p|
  {
    p != [] && q != [] &&
    var a, b := Decode(p[0]), Decode(q[0]);
    match doc
    case Object(m) => a != b || (a in m && Apart(m[a], p[1..], q[1..]))
    case Array(items) =>
      var i, j := Position(a, |items|), Position(b, |items|);
      i != j || (i >= 0 && Apart(items[i], p[1..], q[1..]))
    case Scalar(_) => false
  }

  /** Every path apart from the one that was set reads as before, whether it led
      somewhere or not. */
  lemma {:induction false} OthersUnchanged(doc: Json, parts: seq<string>, value: Json, other: seq<string>)
    requires SetJson(doc, parts, value).Done? && Apart(doc, parts, other)
    ensures Get(SetJson(doc, parts, value).value, other) == Get(doc, other)
    decreases |parts|
  {
    var a, b := Decode(parts[0]), Decode(other[0]);
    match doc
    case Object(m) =>
      if a == b { OthersUnchanged(m[a], parts[1..], value, other[1..]); }
    case Array(items) =>
      var i, j := Position(a, |items|), Position(b, |items|);
      if i == j { OthersUnchanged(items[i], parts[1..], value, other[1..]); }
  }

  /** Tokens that differ as text may name the same array item, so being apart is
      about the positions and not about the spelling. */
  lemma {:induction false} SpellingIsNotPosition(x: Json, y: Json)
    ensures SetJson(Array([x]), ["00"], y) == Done(Array([y])) && Get(Array([y]), ["+0"]) == Some(y)
  {
    assert Decode("00") == "00" && Decode("+0") == "+0" by {
      PlainToken("00"); PlainToken("+0");
    }
    ZeroSpellings();
    assert [x][0 := y] == [y];
    assert ["00"][1..] == [] && ["+0"][1..] == [];
  }

  lemma ZeroSpellings()
    ensures Position("00", 1) == 0 && Position("+0", 1) == 0
  {
    assert Number("0") == 0 by { assert "0"[..0] == "" && Number("") == 0; }
    assert Number("00") == 0 by { assert "00"[..1] == "0"; }
    assert "+0"[1..] == "0";
    assert Atoi("00") == Some(0);
    assert Atoi("+0") == Some(0);
  }

  lemma {:induction false} PlainToken(t: string)
    requires '~' !in t
    ensures Decode(t) == t
  {
    NothingToReplace(t, "~1", "/");
    NothingToReplace(t, "~0", "~");
  }

  predicate Accepts(container: Json, token: string) {
    match container
    case Object(_) => true
    case Array(a) => Position(Decode(token), |a|) >= 0
    case Scalar(_) => false
  }

  /** A set succeeds exactly when the parent exists and can hold the last token. */
  lemma {:induction false} SetSucceedsWhenParentAccepts(doc: Json, parts: seq<string>, value: Json)
    requires parts != []
    ensures SetJson(doc, parts, value).Done? <==>
              var parent := Get(doc, parts[..|parts| - 1]);
              parent.Some? && Accepts(parent.value, parts[|parts| - 1])
    decreases |parts|
  {
    if |parts| > 1 {
      var part := Decode(parts[0]);
      var front := parts[..|parts| - 1];
      assert front[0] == parts[0] && front[1..] == parts[1..][..|parts[1..]| - 1];
      assert parts[1..][|parts[1..]| - 1] == parts[|parts| - 1];
      match doc
      case Object(m) =>
        if part in m { SetSucceedsWhenParentAccepts(m[part], parts[1..], value); }
      case Array(a) =>
        if Position(part, |a|) >= 0 { SetSucceedsWhenParentAccepts(a[Position(part, |a|)], parts[1..], value); }
      case Scalar(_) =>
    } else {
      assert parts[1..] == [] && parts[..0] == [];
    }
  }
}
