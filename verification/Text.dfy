/** Text as the mail hub sees it: a sequence of bytes, one `char` per byte.
    Case folding is ASCII folding. */
module Text {

  datatype Option<+T> = None | Some(value: T)

  function LowerChar(c: char): char {
    if 'A' <= c <= 'Z' then c + ' ' else c
  }

  function Lower(s: string): (r: string)
    ensures |r| == |s|
  {
    seq(|s|, i requires 0 <= i < |s| => LowerChar(s[i]))
  }

  predicate EqualFold(a: string, b: string) {
    Lower(a) == Lower(b)
  }

  predicate HasPrefix(s: string, p: string) {
    |p| <= |s| && s[..|p|] == p
  }

  predicate HasSuffix(s: string, p: string) {
    |p| <= |s| && s[|s| - |p|..] == p
  }

  /** `pat` occurs in `s` at position `i`. */
  predicate At(s: string, pat: string, i: nat) {
    i + |pat| <= |s| && s[i..i + |pat|] == pat
  }

  /** The least position at or after `i` where `pat` occurs, or -1. */
  function IndexFrom(s: string, pat: string, i: nat): (r: int)
    requires i <= |s|
    ensures r == -1 || (i <= r && At(s, pat, r))
    ensures forall j: nat :: i <= j && At(s, pat, j) ==> 0 <= r <= j
    decreases |s| - i
  {
    if At(s, pat, i) then i
    else if i == |s| then -1
    else IndexFrom(s, pat, i + 1)
  }

  function Index(s: string, pat: string): (r: int)
    ensures r == -1 || (0 <= r && At(s, pat, r))
    ensures forall j: nat :: At(s, pat, j) ==> 0 <= r <= j
  {
    IndexFrom(s, pat, 0)
  }

  /** The pieces of `s` between non-overlapping occurrences of `sep`, left to right. */
  function Split(s: string, sep: string): (r: seq<string>)
    requires sep != ""
    ensures |r| > 0
    decreases |s|
  {
    var i := Index(s, sep);
    if i < 0 then [s] else [s[..i]] + Split(s[i + |sep|..], sep)
  }

  function Join(parts: seq<string>, sep: string): string {
    if parts == [] then ""
    else if |parts| == 1 then parts[0]
    else parts[0] + sep + Join(parts[1..], sep)
  }

  lemma {:induction false} JoinSplit(s: string, sep: string)
    requires sep != ""
    ensures Join(Split(s, sep), sep) == s
    decreases |s|
  {
    var i := Index(s, sep);
    if i >= 0 {
      var head, tail := s[..i], s[i + |sep|..];
      var rest := Split(tail, sep);
      JoinSplit(tail, sep);
      assert ([head] + rest)[0] == head && ([head] + rest)[1..] == rest;
      assert s == head + sep + tail;
    }
  }

  lemma {:induction false} JoinAppend(a: seq<string>, b: seq<string>, sep: string)
    requires a != [] && b != []
    ensures Join(a + b, sep) == Join(a, sep) + sep + Join(b, sep)
  {
    if |a| == 1 {
      assert (a + b)[1..] == b;
    } else {
      JoinAppend(a[1..], b, sep);
      assert (a + b)[1..] == a[1..] + b;
    }
  }

  /** A one-byte pattern is found at its first occurrence. */
  lemma IndexChar(s: string, c: char)
    ensures Index(s, [c]) == -1 ==> c !in s
    ensures Index(s, [c]) >= 0 ==> s[Index(s, [c])] == c && c !in s[..Index(s, [c])]
  {
    forall j: nat | j < |s| && s[j] == c
      ensures At(s, [c], j)
    {
    }
    var i := Index(s, [c]);
    if i >= 0 { assert s[i] == s[i..i + 1][0]; }
  }

  /** Pieces free of a one-byte separator come back unchanged. */
  lemma {:induction false} SplitJoin(parts: seq<string>, c: char)
    requires parts != []
    requires forall p :: p in parts ==> c !in p
    ensures Split(Join(parts, [c]), [c]) == parts
  {
    var s := Join(parts, [c]);
    IndexChar(s, c);
    var i := Index(s, [c]);
    assert parts[0] in parts;
    if |parts| > 1 {
      var head, rest := parts[0], Join(parts[1..], [c]);
      SplitJoin(parts[1..], c);
      assert s == head + [c] + rest && s[|head|] == c;
      assert At(s, [c], |head|);
      assert s[..i] == head && s[i + 1..] == rest;
    }
  }

  lemma {:induction false} IndexAppend(a: string, b: string, c: char)
    ensures Index(a + [c] + b, [c]) == if Index(a, [c]) < 0 then |a| else Index(a, [c])
  {
    var s := a + [c] + b;
    IndexChar(a, c);
    IndexChar(s, c);
    var i := if Index(a, [c]) < 0 then |a| else Index(a, [c]);
    assert s[i] == c;
    assert s[i..i + 1] == [c];
    assert At(s, [c], i);
    assert s[..i] == a[..i];
    assert c !in s[..i];
  }

  lemma {:induction false} SplitAppend(a: string, b: string, c: char)
    ensures Split(a + [c] + b, [c]) == Split(a, [c]) + Split(b, [c])
    decreases |a|
  {
    var s := a + [c] + b;
    var i := Index(a, [c]);
    IndexAppend(a, b, c);
    if i < 0 {
      assert s[..|a|] == a && s[|a| + 1..] == b;
    } else {
      assert s[..i] == a[..i] && s[i + 1..] == a[i + 1..] + [c] + b;
      SplitAppend(a[i + 1..], b, c);
    }
  }

  function Count(s: string, c: char): nat {
    if s == "" then 0 else (if s[0] == c then 1 else 0) + Count(s[1..], c)
  }

  lemma {:induction false} CountAppend(a: string, b: string, c: char)
    ensures Count(a + b, c) == Count(a, c) + Count(b, c)
  {
    if a == "" {
      assert a + b == b;
    } else {
      assert (a + b)[1..] == a[1..] + b;
      CountAppend(a[1..], b, c);
    }
  }

  lemma {:induction false} CountNone(s: string, c: char)
    requires c !in s
    ensures Count(s, c) == 0
  {
    if s != "" { CountNone(s[1..], c); }
  }

  lemma {:induction false} SplitCount(s: string, c: char)
    ensures |Split(s, [c])| == Count(s, c) + 1
    decreases |s|
  {
    IndexChar(s, c);
    var i := Index(s, [c]);
    if i < 0 {
      CountNone(s, c);
    } else {
      var head, tail := s[..i], s[i + 1..];
      CountNone(head, c);
      SplitCount(tail, c);
      assert s == head + ([c] + tail);
      CountAppend(head, [c] + tail, c);
      assert ([c] + tail)[1..] == tail;
    }
  }

  /** Every non-overlapping occurrence of `from`, from the left, replaced. */
  function ReplaceAll(s: string, from: string, into: string): string
    requires from != ""
    decreases |s|
  {
    if s == "" then ""
    else if HasPrefix(s, from) then into + ReplaceAll(s[|from|..], from, into)
    else [s[0]] + ReplaceAll(s[1..], from, into)
  }

  lemma ReplaceMatch(from: string, rest: string, into: string)
    requires from != ""
    ensures ReplaceAll(from + rest, from, into) == into + ReplaceAll(rest, from, into)
  {
    assert (from + rest)[..|from|] == from && (from + rest)[|from|..] == rest;
  }

  lemma ReplaceSkip(c: char, rest: string, from: string, into: string)
    requires from != "" && (c != from[0] || (|from| > 1 && (rest == "" || rest[0] != from[1])))
    ensures ReplaceAll([c] + rest, from, into) == [c] + ReplaceAll(rest, from, into)
  {
    var s := [c] + rest;
    assert s[1..] == rest && s[0] == c;
    assert !HasPrefix(s, from) by {
      if |from| <= |s| { assert s[..|from|][0] == c; }
      if 1 < |from| <= |s| { assert s[..|from|][1] == rest[0]; }
    }
  }

  lemma {:induction false} NothingToReplace(t: string, from: string, into: string)
    requires from != "" && from[0] !in t
    ensures ReplaceAll(t, from, into) == t
  {
    if t != "" {
      NothingToReplace(t[1..], from, into);
      assert t == [t[0]] + t[1..];
      ReplaceSkip(t[0], t[1..], from, into);
    }
  }

  /** ContainsAny of the source: does `s` hold one of the characters of `chars`? */
  predicate ContainsAny(s: string, chars: string) {
    exists i :: 0 <= i < |s| && s[i] in chars
  }
}
