/** SMTP address resolution over a resolver that may answer anything. */
module MailDns {
  import opened Text
  import opened MxOrder

  datatype QueryType = TypeMX | TypeA | TypeAAAA

  datatype Record =
    | MxRecord(host: string, pref: nat)
    | Cname(owner: string, target: string)
    | Address(kind: QueryType)
    | Other

  /** A resolver outage, or a reply with its answer section: NXDOMAIN or success. */
  datatype Response = Outage(text: string) | NameError(records: seq<Record>) | Answer(records: seq<Record>)

  /** One query of a lookup, with what the resolver said. */
  datatype Query = Query(name: string, kind: QueryType, response: Response)

  datatype Result = Records(records: seq<MX>) | Error(reason: string, permanent: bool)

  /** The exchangers among the first `n` records. */
  function MxUpTo(records: seq<Record>, n: nat): seq<MX>
    requires n <= |records|
  {
    if n == 0 then []
    else MxUpTo(records, n - 1) +
         (match records[n - 1] case MxRecord(host, pref) => [MX(host, pref)] case _ => [])
  }

  function MxOf(records: seq<Record>): seq<MX> {
    MxUpTo(records, |records|)
  }

  /** The target of the last alias record owned by `name` among the first `n`, or
      the empty string. */
  function AliasUpTo(records: seq<Record>, name: string, n: nat): string
    requires n <= |records|
  {
    if n == 0 then "" else if Owns(records[n - 1], name) then records[n - 1].target else AliasUpTo(records, name, n - 1)
  }

  function Canonical(records: seq<Record>, name: string): string {
    AliasUpTo(records, name, |records|)
  }

  /** The exchangers are those of the answer, as often and in the same order. */
  lemma {:induction false} MxOfMeaning(records: seq<Record>, n: nat) returns (at: seq<nat>)
    requires n <= |records|
    ensures |at| == |MxUpTo(records, n)| && (forall i, j :: 0 <= i < j < |at| ==> at[i] < at[j])
    ensures forall i :: 0 <= i < |at| ==>
              at[i] < n && records[at[i]] == MxRecord(MxUpTo(records, n)[i].host, MxUpTo(records, n)[i].pref)
    ensures forall k :: 0 <= k < n && records[k].MxRecord? ==> k in at
  {
    at := [];
    if n > 0 {
      at := MxOfMeaning(records, n - 1);
      if records[n - 1].MxRecord? { at := at + [n - 1]; }
    }
  }

  /** The alias is the last one that the name owns, at `k`; -1 says there is none. */
  lemma {:induction false} CanonicalMeaning(records: seq<Record>, name: string, n: nat) returns (k: int)
    requires n <= |records|
    ensures -1 <= k < n && forall l :: k < l < n ==> !Owns(records[l], name)
    ensures if k < 0 then AliasUpTo(records, name, n) == ""
            else Owns(records[k], name) && records[k].target == AliasUpTo(records, name, n)
  {
    if n == 0 {
      k := -1;
    } else if Owns(records[n - 1], name) {
      k := n - 1;
    } else {
      k := CanonicalMeaning(records, name, n - 1);
    }
  }

  predicate Owns(r: Record, name: string) {
    r.Cname? && EqualFold(r.owner, name)
  }

  predicate HasAddress(response: Response, kind: QueryType) {
    !response.Outage? && Address(kind) in response.records
  }

  /** The answer says neither where mail goes nor where to look next. */
  predicate NoData(q: Query) {
    q.response.Answer? && MxOf(q.response.records) == [] && Canonical(q.response.records, q.name) == ""
  }

  /** The answer names no exchanger but another name to ask for. */
  predicate IsAlias(q: Query) {
    q.response.Answer? && MxOf(q.response.records) == [] && Canonical(q.response.records, q.name) != ""
  }

  function Target(q: Query): string
    requires IsAlias(q)
  {
    Canonical(q.response.records, q.name)
  }

  predicate Follows(q: Query, next: string) {
    IsAlias(q) && next == Target(q)
  }

  predicate HasNull(mxs: seq<MX>) {
    exists i :: 0 <= i < |mxs| && mxs[i].host == "."
  }

  /** The MX queries of a lookup: each follows the alias of the one before, and
      no name is asked twice. */
  ghost predicate Chain(log: seq<Query>, start: string, oracle: (nat, string, QueryType) -> Response) {
    && (log != [] ==> log[0].name == start)
    && (forall i :: 0 <= i < |log| ==> log[i].kind == TypeMX && log[i].response == oracle(i, log[i].name, TypeMX))
    && (forall i :: 0 < i < |log| ==> Follows(log[i - 1], log[i].name))
    && (forall i, j :: 0 <= i < j < |log| ==> !EqualFold(log[i].name, log[j].name))
  }

  predicate AllAnswered(log: seq<Query>) {
    forall q :: q in log ==> !q.response.Outage?
  }

  /** The answer names mail exchangers, and none is the Null host. */
  predicate NamesExchangers(q: Query) {
    q.response.Answer? && MxOf(q.response.records) != [] && !HasNull(MxOf(q.response.records))
  }

  predicate SomeAddress(addresses: seq<Query>) {
    exists q :: q in addresses && HasAddress(q.response, q.kind)
  }

  /** What the last MX query and the address queries after it justify: records
      exactly when the answer names exchangers, or has no data and the name an
      address. */
  ghost predicate Justified(r: Result, last: Query, addresses: seq<Query>) {
    && (r.Records? <==> NamesExchangers(last) || (NoData(last) && SomeAddress(addresses)))
    && (r.Error? && NoData(last) ==> |addresses| == 2)
    && match r
    case Records(mxs) =>
      || (addresses == [] && last.response.Answer? && mxs == MxOf(last.response.records) && mxs != [] && !HasNull(mxs))
      || (addresses != [] && NoData(last) && mxs == [MX(last.name, 0)]
          && HasAddress(addresses[|addresses| - 1].response, addresses[|addresses| - 1].kind))
    case Error(_, permanent) =>
      permanent <==>
        || last.response.NameError?
        || (last.response.Answer? && MxOf(last.response.records) == [MX(".", 0)])
        || (NoData(last) && |addresses| == 2
            && forall q :: q in addresses ==> !q.response.Outage? && !HasAddress(q.response, q.kind))
  }

  ghost predicate AddressQueries(
    queries: seq<Query>, name: string, ordinal: nat, oracle: (nat, string, QueryType) -> Response) {
    && |queries| <= 2
    && forall i :: 0 <= i < |queries| ==>
         && queries[i].name == name
         && queries[i].kind == (if i == 0 then TypeA else TypeAAAA)
         && queries[i].response == oracle(ordinal + i, name, queries[i].kind)
  }

  /** The name was asked for before, up to case. */
  predicate Asked(log: seq<Query>, name: string) {
    exists i :: 0 <= i < |log| && EqualFold(log[i].name, name)
  }

  ghost predicate Seen(seen: set<string>, log: seq<Query>) {
    && (forall i :: 0 <= i < |log| ==> Lower(log[i].name) in seen)
    && (forall k :: k in seen ==> exists i :: 0 <= i < |log| && Lower(log[i].name) == k)
  }

  lemma SeenExtends(seen: set<string>, log: seq<Query>, q: Query)
    requires Seen(seen, log)
    ensures Seen(seen + {Lower(q.name)}, log + [q])
  {
    var next := log + [q];
    assert next[|log|] == q;
    forall k | k in seen + {Lower(q.name)}
      ensures exists i :: 0 <= i < |next| && Lower(next[i].name) == k
    {
      if k in seen {
        var i :| 0 <= i < |log| && Lower(log[i].name) == k;
        assert next[i] == log[i];
      } else {
        assert Lower(next[|log|].name) == k;
      }
    }
  }

  lemma ChainExtends(log: seq<Query>, start: string, oracle: (nat, string, QueryType) -> Response, q: Query)
    requires Chain(log, start, oracle)
    requires q.kind == TypeMX && q.response == oracle(|log|, q.name, TypeMX)
    requires forall i :: 0 <= i < |log| ==> !EqualFold(log[i].name, q.name)
    requires if log == [] then q.name == start else Follows(log[|log| - 1], q.name)
    ensures Chain(log + [q], start, oracle)
  {
    var next := log + [q];
    forall i | 0 < i < |next|
      ensures Follows(next[i - 1], next[i].name)
    {
      assert next[i - 1] == log[i - 1];
      if i < |log| { assert next[i] == log[i]; }
    }
  }

  /** Reading one MX answer: the records and the alias target. */
  method ReadAnswer(records: seq<Record>, name: string) returns (mxs: seq<MX>, canonical: string)
    ensures mxs == MxOf(records) && canonical == Canonical(records, name)
  {
    mxs, canonical := [], "";
    for i := 0 to |records|
      invariant mxs == MxUpTo(records, i) && canonical == AliasUpTo(records, name, i)
    {
      match records[i] {
        case MxRecord(host, pref) => mxs := mxs + [MX(host, pref)];
        case Cname(owner, target) =>
          if EqualFold(owner, name) {
            canonical := target;
          }
        case _ =>
      }
    }
  }

  /** Null MX handling of section 3 of RFC 7505. */
  method CheckNull(mxs: seq<MX>) returns (r: Result)
    requires mxs != []
    ensures r.Records? <==> !HasNull(mxs)
    ensures r.Records? ==> r.records == mxs
    ensures r.Error? ==> (r.permanent <==> mxs == [MX(".", 0)])
  {
    for i := 0 to |mxs|
      invariant !HasNull(mxs[..i])
    {
      if mxs[i].host == "." {
        if |mxs| == 1 && mxs[i].pref == 0 {
          assert mxs == [MX(".", 0)];
          return Error("destination publishes Null MX and accepts no mail", true);
        }
        return Error("invalid mixed Null MX response", false);
      }
    }
    assert mxs[..|mxs|] == mxs;
    return Records(mxs);
  }

  /** The implicit MX of section 5.1 of RFC 5321: the name itself, when it has an address. */
  method ImplicitMx(
    name: string, ordinal: nat, oracle: (nat, string, QueryType) -> Response) returns (r: Result, queries: seq<Query>)
    ensures AddressQueries(queries, name, ordinal, oracle) && queries != []
    ensures r.Records? ==> r.records == [MX(name, 0)]
    ensures r.Records? ==> HasAddress(queries[|queries| - 1].response, queries[|queries| - 1].kind)
    ensures r.Error? ==> |queries| == 2 && forall q :: q in queries ==> !HasAddress(q.response, q.kind)
    ensures r.Error? ==> (r.permanent <==> AllAnswered(queries))
  {
    queries := [];
    var failure := None;
    for i := 0 to 2
      invariant |queries| == i && AddressQueries(queries, name, ordinal, oracle)
      invariant forall q :: q in queries ==> !HasAddress(q.response, q.kind)
      invariant failure.None? <==> AllAnswered(queries)
    {
      var kind := if i == 0 then TypeA else TypeAAAA;
      var response := oracle(ordinal + i, name, kind);
      ghost var before := queries;
      queries := queries + [Query(name, kind, response)];
      assert queries[i] == Query(name, kind, response);
      assert forall q :: q in queries <==> q in before || q == queries[i];
      match response {
        case Outage(text) => failure := Some(text);
        case _ =>
          if Address(kind) in response.records {
            return Records([MX(name, 0)]), queries;
          }
      }
    }
    match failure {
      case Some(text) => return Error(text, false), queries;
      case None => return Error("destination has no MX or address records", true), queries;
    }
  }

  /** What one MX response means: a result, or an alias to follow. */
  method Interpret(q: Query, ordinal: nat, oracle: (nat, string, QueryType) -> Response)
    returns (done: bool, r: Result, addresses: seq<Query>, next: string)
    ensures done <==> !IsAlias(q)
    ensures !done ==> Follows(q, next) && addresses == []
    ensures done ==> Justified(r, q, addresses) && (addresses != [] <==> NoData(q))
    ensures done ==> AddressQueries(addresses, q.name, ordinal, oracle)
  {
    addresses, next, done := [], q.name, true;
    match q.response {
      case Outage(text) => r := Error(text, false);
      case NameError(_) => r := Error("destination domain does not exist", true);
      case Answer(records) =>
        var mxs, canonical := ReadAnswer(records, q.name);
        if |mxs| > 0 {
          r := CheckNull(mxs);
        } else if canonical == "" {
          r, addresses := ImplicitMx(q.name, ordinal, oracle);
        } else {
          r := Error("DNS CNAME depth exceeded", false);
          done, next := false, canonical;
        }
    }
  }

  /** `valid` and `start` are the syntax check and the fully qualified form of the
      domain; `oracle(n, ...)` answers the n-th query. `log` holds the MX queries
      and `addresses` the address queries after them. */
  method LookupMailMX(valid: bool, start: string, oracle: (nat, string, QueryType) -> Response)
    returns (r: Result, log: seq<Query>, addresses: seq<Query>)
    ensures |log| <= 8 && Chain(log, start, oracle)
    ensures !valid ==> r == Error("invalid destination domain", true) && log == [] && addresses == []
    ensures valid ==> log != [] && AddressQueries(addresses, log[|log| - 1].name, |log|, oracle)
    ensures valid ==> Justified(r, log[|log| - 1], addresses) && (addresses != [] <==> NoData(log[|log| - 1]))
    ensures valid && IsAlias(log[|log| - 1]) ==> |log| == 8 || Asked(log, Target(log[|log| - 1]))
  {
    log, addresses := [], [];
    if !valid {
      return Error("invalid destination domain", true), log, addresses;
    }
    var name := start;
    var seen: set<string> := {};
    for depth := 0 to 8
      invariant |log| == depth && Chain(log, start, oracle) && addresses == []
      invariant if log == [] then name == start else Follows(log[|log| - 1], name)
      invariant Seen(seen, log)
    {
      var key := Lower(name);
      if key in seen {
        assert Asked(log, name);
        return Error("DNS CNAME loop", false), log, addresses;
      }
      var response := oracle(depth, name, TypeMX);
      ChainExtends(log, start, oracle, Query(name, TypeMX, response));
      SeenExtends(seen, log, Query(name, TypeMX, response));
      seen := seen + {key};
      log := log + [Query(name, TypeMX, response)];
      var done: bool;
      done, r, addresses, name := Interpret(log[depth], |log|, oracle);
      if done {
        return r, log, addresses;
      }
    }
    return Error("DNS CNAME depth exceeded", false), log, addresses;
  }

  /** A permanent error means that every query of the lookup was answered. */
  lemma PermanentOnlyWhenAnswered(
    r: Result, log: seq<Query>, addresses: seq<Query>, start: string, oracle: (nat, string, QueryType) -> Response)
    requires log != [] && Chain(log, start, oracle) && AddressQueries(addresses, log[|log| - 1].name, |log|, oracle)
    requires Justified(r, log[|log| - 1], addresses) && r.Error? && r.permanent
    requires addresses != [] <==> NoData(log[|log| - 1])
    ensures AllAnswered(log + addresses)
  {
    forall i | 0 <= i < |log|
      ensures !log[i].response.Outage?
    {
      if i + 1 < |log| { assert Follows(log[i], log[i + 1].name); }
    }
  }

  /** The Null MX host is returned as deliverable only by the implicit rule, for
      a lookup that ends at the root name itself; never from an MX answer. */
  lemma NullHostOnlyAtRoot(r: Result, last: Query, addresses: seq<Query>)
    requires Justified(r, last, addresses) && r.Records?
    ensures HasNull(r.records) <==> addresses != [] && last.name == "."
    ensures addresses == [] ==> r.records == MxOf(last.response.records)
  {
    if addresses != [] { assert r.records[0].host == last.name; }
  }
}
