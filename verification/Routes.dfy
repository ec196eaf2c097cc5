/** Transport table of outbound delivery: validation and route selection. */
module Routes {
  import opened Text

  datatype NextHop = NextHop(
    address: string,
    requireTLS: bool,
    clientCert: string,
    clientKey: string,
    username: string,
    passwordEnv: string)

  datatype Route = Route(senderDomain: string, priority: int, domain: string, nextHops: seq<NextHop>)

  // ---------- which routes apply, and how they rank ----------

  function Pattern(r: Route): string {
    Lower(r.domain)
  }

  predicate Exact(r: Route, domain: string) {
    Pattern(r) == domain
  }

  predicate Suffix(r: Route, domain: string) {
    !Exact(r, domain) && HasPrefix(Pattern(r), "*.") && HasSuffix(domain, Pattern(r)[1..])
  }

  predicate MatchesDomain(r: Route, domain: string) {
    Exact(r, domain) || Suffix(r, domain) || Pattern(r) == "*"
  }

  predicate MatchesSender(r: Route, sender: string) {
    r.senderDomain == "" || (sender != "" && EqualFold(r.senderDomain, sender))
  }

  predicate Applies(r: Route, domain: string, sender: string) {
    MatchesDomain(r, domain) && MatchesSender(r, sender)
  }

  function SuffixLength(r: Route, domain: string): nat {
    if Suffix(r, domain) then |Pattern(r)| else 0
  }

  /** Rank for a destination: first whether the pattern is the very domain, then
      the length of a matching suffix pattern, then whether the rule names a
      sender, and last the priority, where less is better. */
  predicate Outranks(a: Route, b: Route, domain: string) {
    if Exact(a, domain) != Exact(b, domain) then Exact(a, domain)
    else if SuffixLength(a, domain) != SuffixLength(b, domain) then
      SuffixLength(a, domain) > SuffixLength(b, domain)
    else if (a.senderDomain == "") != (b.senderDomain == "") then a.senderDomain != ""
    else a.priority < b.priority
  }

  /** Index of the first route of highest rank among the first `n`, or -1. */
  function BestIndex(routes: seq<Route>, domain: string, sender: string, n: nat): (b: int)
    requires n <= |routes|
    ensures -1 <= b < n
    ensures b >= 0 ==> Applies(routes[b], domain, sender)
  {
    if n == 0 then -1
    else
      var b := BestIndex(routes, domain, sender, n - 1);
      if Applies(routes[n - 1], domain, sender) && (b < 0 || Outranks(routes[n - 1], routes[b], domain))
      then n - 1 else b
  }

  /** The lookup key of a recipient domain: one trailing dot removed, folded. */
  function Canonical(domain: string): string {
    Lower(if HasSuffix(domain, ".") then domain[..|domain| - 1] else domain)
  }

  /** The greatest position before `n` that holds `c`, or -1. */
  function LastIndex(s: string, c: char, n: nat): (r: int)
    requires n <= |s|
    ensures -1 <= r < n
    ensures r >= 0 ==> s[r] == c
    ensures forall j :: r < j < n ==> s[j] != c
  {
    if n == 0 then -1
    else if s[n - 1] == c then n - 1
    else LastIndex(s, c, n - 1)
  }

  function SenderDomain(from: string): string {
    var i := LastIndex(from, '@', |from|);
    if i >= 0 then Lower(from[i + 1..]) else ""
  }

  function HopsFor(routes: seq<Route>, domain: string, sender: string): seq<NextHop> {
    var b := BestIndex(routes, domain, sender, |routes|);
    if b < 0 then [] else routes[b].nextHops
  }

  function Selected(routes: seq<Route>, domain: string, from: string): seq<NextHop> {
    HopsFor(routes, Canonical(domain), SenderDomain(from))
  }

  /** The sender's domain is what follows the last @, in lower case. */
  lemma {:induction false} SenderFollowsLastAt(local: string, domain: string)
    requires '@' !in domain
    ensures SenderDomain(local + "@" + domain) == Lower(domain)
    ensures SenderDomain(domain) == ""
  {
    var from := local + "@" + domain;
    var i := LastIndex(from, '@', |from|);
    assert from[|local|] == '@';
    assert i == |local| && from[i + 1..] == domain;
  }

  lemma LowerTwice(s: string)
    ensures Lower(Lower(s)) == Lower(s)
  {
  }

  /** A route for one sender applies exactly to senders of that domain, in any case;
      a route without a sender to all. */
  lemma {:induction false} SenderRouteApplies(r: Route, local: string, domain: string)
    requires '@' !in domain
    ensures MatchesSender(r, SenderDomain(local + "@" + domain)) <==>
              r.senderDomain == "" || EqualFold(r.senderDomain, domain)
    ensures MatchesSender(r, SenderDomain(domain)) <==> r.senderDomain == ""
  {
    SenderFollowsLastAt(local, domain);
    LowerTwice(domain);
    assert Lower("") == "";
  }

  /** Neither the case of the destination nor one trailing dot matters. */
  lemma {:induction false} SpellingOfDomain(routes: seq<Route>, domain: string, other: string, from: string)
    requires EqualFold(domain, other)
    ensures Selected(routes, domain, from) == Selected(routes, other, from)
    ensures !HasSuffix(domain, ".") ==> Selected(routes, domain + ".", from) == Selected(routes, domain, from)
  {
    assert |domain| == |other| by { assert |Lower(domain)| == |Lower(other)|; }
    if domain != "" {
      var n := |domain| - 1;
      assert LowerChar(domain[n]) == Lower(domain)[n] == Lower(other)[n] == LowerChar(other[n]);
      assert HasSuffix(domain, ".") <==> domain[n] == '.' by { assert domain[n..] == [domain[n]]; }
      assert HasSuffix(other, ".") <==> other[n] == '.' by { assert other[n..] == [other[n]]; }
      assert Lower(domain[..n]) == Lower(domain)[..n] && Lower(other[..n]) == Lower(other)[..n];
    }
    assert (domain + ".")[..|domain|] == domain;
  }

  /** A pattern `*.name` matches every name below `name` and not `name` itself. */
  lemma {:induction false} WildcardMatches(r: Route, name: string, below: string)
    requires Pattern(r) == "*." + name && name != "" && name[0] != '*'
    ensures MatchesDomain(r, below + "." + name) && !MatchesDomain(r, name)
  {
    var d := below + "." + name;
    assert Pattern(r)[1..] == "." + name;
    assert d[|d| - |name| - 1..] == "." + name;
    assert Pattern(r)[..2] == "*.";
  }

  // ---------- the integer score refines the documented order ----------

  /** A suffix pattern that matches is at most one byte longer than the domain,
      so no length of name can lift a suffix score over an exact one. */
  function Score(r: Route, domain: string): (s: int)
    requires MatchesDomain(r, domain)
    ensures s >= 0
    ensures Suffix(r, domain) ==> 4 <= s <= 2 * (|domain| + 1) + 1
    ensures Exact(r, domain) ==> s >= 200000 + 2 * |domain|
  {
    2 * (if Exact(r, domain) then 100000 + |Pattern(r)| else SuffixLength(r, domain))
      + (if r.senderDomain != "" then 1 else 0)
  }

  lemma {:induction false} ScoreIsLexicographic(a: Route, b: Route, domain: string)
    requires MatchesDomain(a, domain) && MatchesDomain(b, domain)
    ensures Outranks(a, b, domain) <==>
              (Score(a, domain) > Score(b, domain)
               || (Score(a, domain) == Score(b, domain) && a.priority < b.priority))
  {
    assert Exact(a, domain) && Exact(b, domain) ==> |Pattern(a)| == |Pattern(b)|;
    assert SuffixLength(a, domain) <= |domain| + 1 && SuffixLength(b, domain) <= |domain| + 1;
  }

  lemma {:induction false} OutranksTransitive(a: Route, b: Route, c: Route, domain: string)
    requires !Outranks(b, a, domain) && Outranks(c, a, domain)
    ensures Outranks(c, b, domain)
  {
  }

  /** The selected route is the lexicographic maximum of the applicable routes,
      the earliest one on a tie. */
  lemma {:induction false} BestIndexIsMaximum(routes: seq<Route>, domain: string, sender: string, n: nat)
    requires n <= |routes|
    ensures var b := BestIndex(routes, domain, sender, n);
            && (b < 0 <==> forall k :: 0 <= k < n ==> !Applies(routes[k], domain, sender))
            && (b >= 0 ==> forall k :: 0 <= k < n && Applies(routes[k], domain, sender) ==>
                  !Outranks(routes[k], routes[b], domain) && (k < b ==> Outranks(routes[b], routes[k], domain)))
  {
    if n > 0 {
      BestIndexIsMaximum(routes, domain, sender, n - 1);
      var b := BestIndex(routes, domain, sender, n - 1);
      if b >= 0 && Applies(routes[n - 1], domain, sender) && Outranks(routes[n - 1], routes[b], domain) {
        forall k | 0 <= k < n - 1 && Applies(routes[k], domain, sender)
          ensures Outranks(routes[n - 1], routes[k], domain)
        {
          OutranksTransitive(routes[b], routes[k], routes[n - 1], domain);
        }
      }
    }
  }

  /** The score of one route, or -1 when it does not apply. */
  method ScoreRoute(r: Route, domain: string, sender: string) returns (score: int)
    ensures score == if Applies(r, domain, sender) then Score(r, domain) else -1
  {
    var pattern := Lower(r.domain);
    score := -1;
    if pattern == domain {
      score := 100000 + |pattern|;
    } else if HasPrefix(pattern, "*.") && HasSuffix(domain, pattern[1..]) {
      score := |pattern|;
    } else if pattern == "*" {
      score := 0;
    }
    if score < 0 {
      return -1;
    }
    score := score * 2;
    if r.senderDomain != "" {
      if sender == "" || !EqualFold(r.senderDomain, sender) {
        return -1;
      }
      score := score + 1;
    }
  }

  method SelectRoute(routes: seq<Route>, domain: string, from: string) returns (best: seq<NextHop>)
    ensures best == Selected(routes, domain, from)
  {
    best := BestHops(routes, Canonical(domain), SenderDomain(from));
  }

  method BestHops(routes: seq<Route>, d: string, sender: string) returns (best: seq<NextHop>)
    ensures best == HopsFor(routes, d, sender)
  {
    var bestScore := -1;
    var bestPriority := 0;
    best := [];
    for i := 0 to |routes|
      invariant var b := BestIndex(routes, d, sender, i);
                if b < 0 then bestScore == -1 && best == []
                else (bestScore == Score(routes[b], d) && bestPriority == routes[b].priority
                      && best == routes[b].nextHops)
    {
      var r := routes[i];
      var score := ScoreRoute(r, d, sender);
      if score < 0 {
        continue;
      }
      ghost var b := BestIndex(routes, d, sender, i);
      if b >= 0 { ScoreIsLexicographic(r, routes[b], d); }
      if score > bestScore || (score == bestScore && r.priority < bestPriority) {
        bestScore := score;
        bestPriority := r.priority;
        best := r.nextHops;
      }
    }
  }

  // ---------- accepted tables ----------

  function Key(r: Route): string {
    Pattern(r) + "|" + Lower(r.senderDomain)
  }

  /** `reachable` stands for the host:port syntax check of a next hop address. */
  predicate HopOk(h: NextHop, reachable: string -> bool) {
    && reachable(h.address)
    && (h.clientCert != "" || h.clientKey != "" ==> h.requireTLS && h.clientCert != "" && h.clientKey != "")
    && (h.username != "" || h.passwordEnv != "" ==> h.requireTLS && h.username != "" && h.passwordEnv != "")
  }

  predicate RouteOk(r: Route, reachable: string -> bool) {
    var d := Pattern(r);
    && d != "" && d != "*." && !ContainsAny(d, " /\r\n@") && r.nextHops != []
    && ('*' in d && d != "*" ==> HasPrefix(d, "*.") && '*' !in d[2..])
    && r.priority >= 0 && !ContainsAny(r.senderDomain, " /\r\n@*")
    && forall h :: h in r.nextHops ==> HopOk(h, reachable)
  }

  ghost predicate Accepted(routes: seq<Route>, reachable: string -> bool) {
    && (forall i :: 0 <= i < |routes| ==> RouteOk(routes[i], reachable))
    && forall i, j :: 0 <= i < j < |routes| ==> Key(routes[i]) != Key(routes[j])
  }

  method ValidateRoutes(routes: seq<Route>, reachable: string -> bool) returns (ok: bool)
    ensures ok <==> Accepted(routes, reachable)
  {
    var seen: set<string> := {};
    for i := 0 to |routes|
      invariant Accepted(routes[..i], reachable)
      invariant forall j :: 0 <= j < i ==> Key(routes[j]) in seen
      invariant forall k :: k in seen ==> exists j :: 0 <= j < i && Key(routes[j]) == k
    {
      var r := routes[i];
      var d := Lower(r.domain);
      assert routes[..i + 1] == routes[..i] + [r];
      if d == "" || d == "*." || ContainsAny(d, " /\r\n@") || d + "|" + Lower(r.senderDomain) in seen
          || |r.nextHops| == 0 {
        return false;
      }
      if '*' in d && d != "*" && (!HasPrefix(d, "*.") || '*' in d[2..]) {
        return false;
      }
      if r.priority < 0 || ContainsAny(r.senderDomain, " /\r\n@*") {
        return false;
      }
      seen := seen + {d + "|" + Lower(r.senderDomain)};
      for k := 0 to |r.nextHops|
        invariant forall h :: h in r.nextHops[..k] ==> HopOk(h, reachable)
      {
        var h := r.nextHops[k];
        assert h in r.nextHops && !HopOk(h, reachable) ==> !RouteOk(routes[i], reachable);
        if !reachable(h.address) {
          return false;
        }
        if (h.clientCert != "" || h.clientKey != "") && (!h.requireTLS || h.clientCert == "" || h.clientKey == "") {
          return false;
        }
        if (h.username != "" || h.passwordEnv != "") && (!h.requireTLS || h.username == "" || h.passwordEnv == "") {
          return false;
        }
      }
      assert RouteOk(r, reachable);
    }
    assert routes[..|routes|] == routes;
    return true;
  }

  /** The text that must not repeat stands for the pair of pattern and sender as
      long as no pattern holds the bar that joins them. */
  lemma {:induction false} KeyIsPair(a: Route, b: Route)
    requires '|' !in Pattern(a) && '|' !in Pattern(b)
    ensures Key(a) == Key(b) <==> Pattern(a) == Pattern(b) && Lower(a.senderDomain) == Lower(b.senderDomain)
  {
    if Key(a) == Key(b) {
      var p, q := Pattern(a), Pattern(b);
      IndexChar(p, '|');
      IndexChar(q, '|');
      IndexAppend(p, Lower(a.senderDomain), '|');
      IndexAppend(q, Lower(b.senderDomain), '|');
      assert p == Key(a)[..|p|] == Key(b)[..|q|] == q;
      assert Lower(a.senderDomain) == Key(a)[|p| + 1..];
    }
  }

  /** And not otherwise: a route whose pattern holds a bar shares its text with one
      of another pattern, which is a valid route by itself unless nothing but a
      wildcard prefix stands before the bar. */
  lemma {:induction false} BarCollides(a: Route, reachable: string -> bool) returns (b: Route)
    requires '|' in Pattern(a)
    ensures Pattern(b) != Pattern(a) && Key(b) == Key(a) && !Accepted([a, b], reachable)
    ensures RouteOk(a, reachable) && Pattern(b) !in {"", "*."} ==> RouteOk(b, reachable)
  {
    var p := Pattern(a);
    var i :| 0 <= i < |p| && p[i] == '|';
    var head, tail := p[..i], p[i + 1..] + "|" + Lower(a.senderDomain);
    b := Route(tail, a.priority, head, a.nextHops);
    assert Lower(head) == head && Lower(tail) == tail;
    assert p == head + "|" + p[i + 1..];
    assert Key(b) == Key(a);
    assert Key([a, b][0]) == Key([a, b][1]);
    if RouteOk(a, reachable) && Pattern(b) !in {"", "*."} { SplitRouteOk(a, b, reachable, i); }
  }

  lemma {:induction false} SplitRouteOk(a: Route, b: Route, reachable: string -> bool, i: nat)
    requires RouteOk(a, reachable) && i < |Pattern(a)| && Pattern(a)[i] == '|'
    requires b == Route(Pattern(a)[i + 1..] + "|" + Lower(a.senderDomain), a.priority, Pattern(a)[..i], a.nextHops)
    requires Pattern(b) == Pattern(a)[..i] && Pattern(b) !in {"", "*."}
    ensures RouteOk(b, reachable)
  {
    var p, head, s := Pattern(a), Pattern(a)[..i], b.senderDomain;
    forall k | 0 <= k < |head|
      ensures head[k] !in " /\r\n@"
    {
      assert head[k] == p[k];
    }
    forall k | 0 <= k < |s|
      ensures s[k] !in " /\r\n@*"
    {
      if k < |p| - i - 1 {
        assert s[k] == p[i + 1 + k] == p[2..][i - 1 + k];
      } else if k > |p| - i - 1 {
        var m := k - (|p| - i);
        assert s[k] == LowerChar(a.senderDomain[m]) && a.senderDomain[m] !in " /\r\n@*";
      }
    }
  }

  /** With one, two different pairs can have the same text, and the table is refused. */
  lemma BarJoinsPairs(hops: seq<NextHop>, reachable: string -> bool)
    ensures var a, b := Route("c", 0, "a|b", hops), Route("b|c", 0, "a", hops);
            Pattern(a) != Pattern(b) && Key(a) == Key(b) && !Accepted([a, b], reachable)
  {
    var a, b := Route("c", 0, "a|b", hops), Route("b|c", 0, "a", hops);
    assert Pattern(a) == "a|b" && Pattern(b) == "a" && Lower("c") == "c" && Lower("b|c") == "b|c";
    assert Key(a) == "a|b|c" == Key(b);
    assert Key([a, b][0]) == Key([a, b][1]);
  }

  /** Applicable routes neither of which outranks the other on domain and sender
      select on the same pattern and the same sender. */
  lemma {:induction false} TieMeansSameKey(a: Route, b: Route, domain: string, sender: string)
    requires Applies(a, domain, sender) && Applies(b, domain, sender)
    requires Score(a, domain) == Score(b, domain)
    ensures Pattern(a) == Pattern(b) && Lower(a.senderDomain) == Lower(b.senderDomain) && Key(a) == Key(b)
  {
    if Exact(a, domain) || Exact(b, domain) {
      assert Pattern(a) == Pattern(b);
    } else if Suffix(a, domain) || Suffix(b, domain) {
      var p, q := Pattern(a), Pattern(b);
      assert |p| == |q| && p[1..] == q[1..] && p[0] == q[0] == '*';
      assert p == [p[0]] + p[1..] && q == [q[0]] + q[1..];
    }
    assert Lower("") == "";
  }

  /** An accepted table has one applicable route of highest rank. */
  lemma {:induction false} MaximumIsUnique(
    routes: seq<Route>, reachable: string -> bool, domain: string, sender: string, b: nat, k: nat)
    requires Accepted(routes, reachable) && b < |routes| && k < |routes|
    requires Applies(routes[b], domain, sender) && Applies(routes[k], domain, sender)
    requires !Outranks(routes[k], routes[b], domain) && !Outranks(routes[b], routes[k], domain)
    ensures b == k
  {
    ScoreIsLexicographic(routes[k], routes[b], domain);
    ScoreIsLexicographic(routes[b], routes[k], domain);
    TieMeansSameKey(routes[k], routes[b], domain, sender);
  }

  lemma {:induction false} Elsewhere(routes: seq<Route>, other: seq<Route>, b: nat) returns (j: nat)
    requires multiset(routes) == multiset(other) && b < |routes|
    ensures j < |other| && other[j] == routes[b]
  {
    assert routes[b] in multiset(routes);
    assert routes[b] in multiset(other);
    j :| 0 <= j < |other| && other[j] == routes[b];
  }

  lemma {:induction false} OrderIndependentIndex(
    routes: seq<Route>, other: seq<Route>, reachable: string -> bool, domain: string, sender: string)
    requires Accepted(routes, reachable) && multiset(routes) == multiset(other)
    ensures var b, c := BestIndex(routes, domain, sender, |routes|), BestIndex(other, domain, sender, |other|);
            if b < 0 then c < 0 else c >= 0 && other[c] == routes[b]
  {
    BestIndexIsMaximum(routes, domain, sender, |routes|);
    BestIndexIsMaximum(other, domain, sender, |other|);
    var b, c := BestIndex(routes, domain, sender, |routes|), BestIndex(other, domain, sender, |other|);
    if c >= 0 {
      var k := Elsewhere(other, routes, c);
      var j := Elsewhere(routes, other, b);
      MaximumIsUnique(routes, reachable, domain, sender, b, k);
    } else if b >= 0 {
      var j := Elsewhere(routes, other, b);
    }
  }

  /** In an accepted table the chosen hops do not depend on the order of the list. */
  lemma {:induction false} OrderIndependent(
    routes: seq<Route>, other: seq<Route>, reachable: string -> bool, domain: string, from: string)
    requires Accepted(routes, reachable)
    requires multiset(routes) == multiset(other)
    ensures Selected(routes, domain, from) == Selected(other, domain, from)
  {
    OrderIndependentIndex(routes, other, reachable, Canonical(domain), SenderDomain(from));
  }

  ghost predicate OnlyPrioritiesDiffer(routes: seq<Route>, other: seq<Route>) {
    && |other| == |routes|
    && forall i :: 0 <= i < |routes| ==> routes[i].(priority := 0) == other[i].(priority := 0)
  }

  /** In an accepted table priorities never decide: they only break ties between
      routes of one pattern and one sender, and the table admits no such pair. */
  lemma {:induction false} PriorityNeverDecides(
    routes: seq<Route>, other: seq<Route>, reachable: string -> bool, domain: string, from: string)
    requires Accepted(routes, reachable)
    requires OnlyPrioritiesDiffer(routes, other)
    ensures Selected(routes, domain, from) == Selected(other, domain, from)
  {
    SameHops(routes, other, reachable, Canonical(domain), SenderDomain(from));
  }

  lemma {:induction false} SameHops(
    routes: seq<Route>, other: seq<Route>, reachable: string -> bool, domain: string, sender: string)
    requires Accepted(routes, reachable) && OnlyPrioritiesDiffer(routes, other)
    ensures HopsFor(routes, domain, sender) == HopsFor(other, domain, sender)
  {
    SameChoice(routes, other, reachable, domain, sender, |routes|);
    var b := BestIndex(routes, domain, sender, |routes|);
    if b >= 0 { assert routes[b].(priority := 0).nextHops == other[b].(priority := 0).nextHops; }
  }

  lemma {:induction false} SameChoice(
    routes: seq<Route>, other: seq<Route>, reachable: string -> bool, domain: string, sender: string, n: nat)
    requires Accepted(routes, reachable) && OnlyPrioritiesDiffer(routes, other) && n <= |routes|
    ensures BestIndex(routes, domain, sender, n) == BestIndex(other, domain, sender, n)
  {
    if n > 0 {
      SameChoice(routes, other, reachable, domain, sender, n - 1);
      var b, r := BestIndex(routes, domain, sender, n - 1), routes[n - 1];
      if b >= 0 && Applies(r, domain, sender) {
        ScoreIsLexicographic(r, routes[b], domain);
        ScoreIsLexicographic(other[n - 1], other[b], domain);
        if Score(r, domain) == Score(routes[b], domain) {
          TieMeansSameKey(r, routes[b], domain, sender);
          assert false;
        }
      }
    }
  }
}
