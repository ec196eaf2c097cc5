/** Outbound delivery of one message: grouping by domain, route or MX choice,
    failover between hosts, and the merged per-recipient outcome. */
module Delivery {
  import opened Text
  import opened Smtp
  import opened MxOrder
  import Routes

  /** One connection attempt: refused before MAIL, or a dialogue. */
  datatype Attempt = DialFailed(text: string) | Connected(dialogue: Dialogue)

  /** The MTA-STS decision for one MX host. */
  datatype Policy = Undecided | Enforce | Opportunistic

  datatype Lookup = Found(records: seq<MX>) | LookupFailed(text: string, permanent: bool)

  /** Everything DNS, policy and remote hosts answer while one domain is served;
      the i-th host tried meets `policy(i)` and `attempts(i)`. */
  datatype World = World(lookup: Lookup, policy: nat -> Policy, attempts: nat -> Attempt)

  // ---------- failover between the hosts of one domain ----------

  predicate AckedBy(a: Attempt, n: nat) {
    a.Connected? && Acknowledged(a.dialogue, n)
  }

  ghost predicate RefusedForGood(a: Attempt, n: nat) {
    a.Connected? && RefusedForever(a.dialogue, n)
  }

  /** No further host is tried after this attempt. */
  ghost predicate Ends(a: Attempt, recipients: seq<string>) {
    AckedBy(a, |recipients|) || RefusedForGood(a, |recipients|)
  }

  /** The first of the attempts `i..n` after which no further host is tried, or `n`. */
  ghost function FirstEnd(attempts: nat -> Attempt, recipients: seq<string>, i: nat, n: nat): (j: nat)
    requires i <= n
    ensures i <= j <= n
    ensures j < n ==> Ends(attempts(j), recipients)
    ensures forall k :: i <= k < j ==> !Ends(attempts(k), recipients)
    decreases n - i
  {
    if i == n || Ends(attempts(i), recipients) then i else FirstEnd(attempts, recipients, i + 1, n)
  }

  ghost function RouteResult(
    hosts: seq<string>, attempts: nat -> Attempt, recipients: seq<string>, none: DeliveryResult): DeliveryResult {
    var j := FirstEnd(attempts, recipients, 0, |hosts|);
    if j < |hosts| then Transaction(attempts(j).dialogue, hosts[j], recipients) else none
  }

  const NoHop := DeliveryResult(false, 451, "All configured next hops unavailable", false, "", [])
  const NoMx := DeliveryResult(false, 450, "All MX hosts failed", false, "", [])

  function Addresses(hops: seq<Routes.NextHop>): seq<string> {
    seq(|hops|, i requires 0 <= i < |hops| => hops[i].address)
  }

  /** `tried` lists the hosts in the order in which they were tried. */
  method DeliverRoute(hosts: seq<string>, attempts: nat -> Attempt, recipients: seq<string>)
    returns (r: DeliveryResult, ok: bool, tried: seq<string>)
    ensures r == RouteResult(hosts, attempts, recipients, NoHop)
    ensures ok == r.success
    ensures tried == hosts[..Tried(hosts, attempts, recipients)]
  {
    for i := 0 to |hosts|
      invariant FirstEnd(attempts, recipients, 0, |hosts|) == FirstEnd(attempts, recipients, i, |hosts|)
    {
      match attempts(i) {
        case DialFailed(_) =>
        case Connected(d) =>
          var result, done := SmtpTransaction(d, hosts[i], recipients);
          TransactionMeaning(d, hosts[i], recipients);
          ResultMeaning(d, hosts[i], recipients);
          if done || result.permanent {
            return result, done, hosts[..i + 1];
          }
      }
    }
    return NoHop, false, hosts[..|hosts|];
  }

  /** How many hosts were contacted. */
  ghost function Tried(hosts: seq<string>, attempts: nat -> Attempt, recipients: seq<string>): (t: nat)
    ensures t <= |hosts|
  {
    var j := FirstEnd(attempts, recipients, 0, |hosts|);
    if j < |hosts| then j + 1 else j
  }

  function TrimDot(host: string): (r: string)
    ensures if HasSuffix(host, ".") then r + "." == host else r == host
  {
    if HasSuffix(host, ".") then host[..|host| - 1] else host
  }

  function JoinHostPort(host: string): (r: string)
    ensures HasSuffix(r, ":25") && (':' !in host ==> r[..|r| - 3] == host)
  {
    if ':' in host then "[" + host + "]:25" else host + ":25"
  }

  /** The attempt an MX host sees; none is made while its policy is undecided. */
  function MxAttempt(w: World): nat -> Attempt {
    (i: nat) => if w.policy(i).Undecided? then DialFailed("MTA-STS policy unavailable") else w.attempts(i)
  }

  /** How a mail exchanger is addressed: by its port when the policy is enforced. */
  function Contact(policy: Policy, host: string): string {
    if policy.Enforce? then JoinHostPort(TrimDot(host)) else TrimDot(host)
  }

  function Contacts(w: World, sorted: seq<MX>): seq<string> {
    seq(|sorted|, i requires 0 <= i < |sorted| => Contact(w.policy(i), sorted[i].host))
  }

  ghost function MxHosts(w: World, records: seq<MX>): seq<string> {
    Contacts(w, StableSort(records))
  }

  /** `names` address the first exchangers of `s`, in its order. */
  ghost predicate Addressed(names: seq<string>, s: seq<MX>, w: World) {
    |names| <= |s| && forall k :: 0 <= k < |names| ==> names[k] == Contact(w.policy(k), s[k].host)
  }

  /** The exchangers in non-decreasing preference, those of equal preference in
      the order of the answer. */
  ghost predicate InPreferenceOrder(names: seq<string>, records: seq<MX>, w: World) {
    exists s :: Sorted(s) && SameWithinPref(records, s) && |s| == |records| && Addressed(names, s, w)
  }

  /** The hosts a domain's mail is offered to, in order. */
  ghost function Hosts(hops: seq<Routes.NextHop>, w: World): seq<string> {
    if hops != [] then Addresses(hops)
    else if w.lookup.Found? then MxHosts(w, w.lookup.records)
    else []
  }

  function Attempts(hops: seq<Routes.NextHop>, w: World): nat -> Attempt {
    if hops != [] then w.attempts else MxAttempt(w)
  }

  /** A host whose policy is undecided is passed over; every other one is tried. */
  lemma UndecidedIsPassedOver(hops: seq<Routes.NextHop>, w: World, k: nat, recipients: seq<string>)
    ensures hops == [] && w.policy(k).Undecided? ==> !Ends(Attempts(hops, w)(k), recipients)
    ensures hops != [] || !w.policy(k).Undecided? ==> Attempts(hops, w)(k) == w.attempts(k)
  {
  }

  ghost function DomainResult(hops: seq<Routes.NextHop>, w: World, recipients: seq<string>): DeliveryResult {
    if hops == [] && w.lookup.LookupFailed? then
      DeliveryResult(false, if w.lookup.permanent then 550 else 451, w.lookup.text, w.lookup.permanent, "", [])
    else
      RouteResult(Hosts(hops, w), Attempts(hops, w), recipients, if hops != [] then NoHop else NoMx)
  }

  /** `tried` lists the hosts in the order in which they were tried: the addresses
      of the selected hops, or else the mail exchangers by preference. */
  method DeliverToDomain(routes: seq<Routes.Route>, domain: string, from: string, w: World, recipients: seq<string>)
    returns (r: DeliveryResult, ok: bool, tried: seq<string>)
    ensures r == DomainResult(Routes.Selected(routes, domain, from), w, recipients)
    ensures ok == r.success
    ensures var hops := Routes.Selected(routes, domain, from);
            && tried == Hosts(hops, w)[..Tried(Hosts(hops, w), Attempts(hops, w), recipients)]
            && (hops != [] ==> |tried| <= |hops| && forall k :: 0 <= k < |tried| ==> tried[k] == hops[k].address)
            && (hops == [] && w.lookup.Found? ==> InPreferenceOrder(tried, w.lookup.records, w))
            && (hops == [] && w.lookup.LookupFailed? ==> tried == [])
  {
    var hops := Routes.SelectRoute(routes, domain, from);
    if hops != [] {
      r, ok, tried := DeliverRoute(Addresses(hops), w.attempts, recipients);
      return;
    }
    match w.lookup {
      case LookupFailed(text, permanent) =>
        return DeliveryResult(false, if permanent then 550 else 451, text, permanent, "", []), false, [];
      case Found(records) =>
        var a := new MX[|records|](i requires 0 <= i < |records| => records[i]);
        assert a[..] == records;
        SortMXRecords(a);
        r, ok, tried := TryMxHosts(a[..], w, recipients);
        StableSortKeeps(records);
        StableSortPermutes(records);
    }
  }

  /** The loop over the sorted MX hosts. */
  method TryMxHosts(sorted: seq<MX>, w: World, recipients: seq<string>)
    returns (r: DeliveryResult, ok: bool, tried: seq<string>)
    ensures r == RouteResult(Contacts(w, sorted), MxAttempt(w), recipients, NoMx)
    ensures ok == r.success
    ensures tried == Contacts(w, sorted)[..Tried(Contacts(w, sorted), MxAttempt(w), recipients)]
    ensures Addressed(tried, sorted, w)
  {
    ghost var hosts, attempts := Contacts(w, sorted), MxAttempt(w);
    tried := [];
    for i := 0 to |sorted|
      invariant tried == hosts[..i]
      invariant forall k :: 0 <= k < i ==> !Ends(attempts(k), recipients)
    {
      tried := tried + [Contact(w.policy(i), sorted[i].host)];
      var ended, result := TryMxHost(sorted[i].host, w.policy(i), w.attempts(i), recipients);
      assert ended <==> Ends(attempts(i), recipients);
      if ended {
        EndAt(hosts, attempts, recipients, i, NoMx);
        TransactionMeaning(w.attempts(i).dialogue, hosts[i], recipients);
        return result, result.success, tried;
      }
    }
    EndAt(hosts, attempts, recipients, |hosts|, NoMx);
    return NoMx, false, tried;
  }

  /** The search ends with the first attempt that ends it. */
  lemma EndAt(hosts: seq<string>, attempts: nat -> Attempt, recipients: seq<string>, i: nat, none: DeliveryResult)
    requires i <= |hosts| && (forall k :: 0 <= k < i ==> !Ends(attempts(k), recipients))
    requires i < |hosts| ==> Ends(attempts(i), recipients)
    ensures Tried(hosts, attempts, recipients) == if i < |hosts| then i + 1 else i
    ensures RouteResult(hosts, attempts, recipients, none)
         == if i < |hosts| then Transaction(attempts(i).dialogue, hosts[i], recipients) else none
  {
    var j := FirstEnd(attempts, recipients, 0, |hosts|);
    assert j == i;
  }

  /** One exchanger, and whether the search ends with it. */
  method TryMxHost(host: string, policy: Policy, attempt: Attempt, recipients: seq<string>)
    returns (ended: bool, result: DeliveryResult)
    ensures ended <==> !policy.Undecided? && Ends(attempt, recipients)
    ensures ended ==> result == Transaction(attempt.dialogue, Contact(policy, host), recipients)
  {
    var delivered := false;
    result := NoMx;
    if attempt.Connected? {
      TransactionMeaning(attempt.dialogue, Contact(policy, host), recipients);
      ResultMeaning(attempt.dialogue, Contact(policy, host), recipients);
    }
    match policy {
      case Undecided =>
        return false, result;
      case Enforce =>
        var once: seq<string>;
        result, delivered, once := DeliverRoute([Contact(policy, host)], (k: nat) => attempt, recipients);
        SingleHop(Contact(policy, host), (k: nat) => attempt, recipients);
      case Opportunistic =>
        match attempt {
          case DialFailed(text) => result := DeliveryResult(false, 451, text, false, Contact(policy, host), []);
          case Connected(d) => result, delivered := SmtpTransaction(d, Contact(policy, host), recipients);
        }
    }
    if delivered && result.success {
      return true, result;
    }
    return result.permanent, result;
  }

  lemma SingleHop(host: string, attempts: nat -> Attempt, recipients: seq<string>)
    ensures RouteResult([host], attempts, recipients, NoHop) ==
              if Ends(attempts(0), recipients) then Transaction(attempts(0).dialogue, host, recipients) else NoHop
  {
    assert FirstEnd(attempts, recipients, 0, 1) == if Ends(attempts(0), recipients) then 0 else 1;
  }

  /** At most one host acknowledges the message for one domain, it is the last
      one tried, and no host is tried after an acknowledgement or a permanent
      refusal. */
  lemma AtMostOneAcknowledgement(
    hosts: seq<string>, attempts: nat -> Attempt, recipients: seq<string>, none: DeliveryResult)
    requires !none.success
    ensures var tried := Tried(hosts, attempts, recipients);
            && (forall k :: 0 <= k < tried - 1 ==> !Ends(attempts(k), recipients))
            && (forall k :: 0 <= k < tried && AckedBy(attempts(k), |recipients|) ==> k == tried - 1)
            && (RouteResult(hosts, attempts, recipients, none).success <==>
                  exists k :: 0 <= k < tried && AckedBy(attempts(k), |recipients|))
            && (tried < |hosts| ==> tried > 0 && Ends(attempts(tried - 1), recipients))
  {
    var j := FirstEnd(attempts, recipients, 0, |hosts|);
    if j < |hosts| { TransactionMeaning(attempts(j).dialogue, hosts[j], recipients); }
  }

  /** The result is that of the last host tried, under its name, if that attempt
      ended the search; otherwise no host answered for good and it is `none`. */
  lemma {:induction false} ResultOfLast(
    hosts: seq<string>, attempts: nat -> Attempt, recipients: seq<string>, none: DeliveryResult)
    ensures var tried, r := Tried(hosts, attempts, recipients), RouteResult(hosts, attempts, recipients, none);
            if tried > 0 && Ends(attempts(tried - 1), recipients)
            then (r == Transaction(attempts(tried - 1).dialogue, hosts[tried - 1], recipients)
                  && r.remoteHost == hosts[tried - 1]
                  && (r.permanent <==> RefusedForGood(attempts(tried - 1), |recipients|)))
            else (r == none && tried == |hosts|)
  {
    var j := FirstEnd(attempts, recipients, 0, |hosts|);
    if j < |hosts| {
      ResultMeaning(attempts(j).dialogue, hosts[j], recipients);
    } else if j > 0 {
      assert !Ends(attempts(j - 1), recipients);
    }
  }

  // ---------- grouping ----------

  /** An address is usable when it has exactly one @. */
  predicate WellFormed(address: string) {
    |Split(address, "@")| == 2
  }

  lemma WellFormedMeansOneAt(address: string)
    ensures WellFormed(address) <==> Count(address, '@') == 1
  {
    SplitCount(address, '@');
  }

  /** The domain of a usable address is what follows its @, in lower case. */
  lemma DomainFollowsAt(local: string, domain: string)
    requires '@' !in local && '@' !in domain
    ensures WellFormed(local + "@" + domain) && DomainOf(local + "@" + domain) == Lower(domain)
  {
    SplitAppend(local, domain, '@');
    IndexChar(local, '@');
    IndexChar(domain, '@');
    assert Split(local, "@") == [local] && Split(domain, "@") == [domain];
  }

  function DomainOf(address: string): string
    requires WellFormed(address)
  {
    Lower(Split(address, "@")[1])
  }

  predicate InDomain(address: string, domain: string) {
    WellFormed(address) && DomainOf(address) == domain
  }

  /** The recipients of one domain, in their order. */
  function Group(to: seq<string>, domain: string): seq<string> {
    if to == [] then []
    else Group(to[..|to| - 1], domain) + (if InDomain(to[|to| - 1], domain) then [to[|to| - 1]] else [])
  }

  function Usable(to: seq<string>): seq<string> {
    if to == [] then []
    else Usable(to[..|to| - 1]) + (if WellFormed(to[|to| - 1]) then [to[|to| - 1]] else [])
  }

  ghost predicate IsGrouping(groups: map<string, seq<string>>, to: seq<string>) {
    forall d :: (d in groups <==> Group(to, d) != []) && (d in groups ==> groups[d] == Group(to, d))
  }

  method GroupByDomain(to: seq<string>) returns (groups: map<string, seq<string>>)
    ensures IsGrouping(groups, to)
  {
    groups := map[];
    for i := 0 to |to|
      invariant IsGrouping(groups, to[..i])
    {
      ghost var before := groups;
      assert to[..i + 1][..i] == to[..i] && to[..i + 1][i] == to[i];
      var parts := Split(to[i], "@");
      if |parts| == 2 {
        var domain := Lower(parts[1]);
        groups := groups[domain := (if domain in groups then groups[domain] else []) + [to[i]]];
      }
      forall d
        ensures (d in groups <==> Group(to[..i + 1], d) != []) && (d in groups ==> groups[d] == Group(to[..i + 1], d))
      {
        assert (d in before <==> Group(to[..i], d) != []) && (d in before ==> before[d] == Group(to[..i], d));
      }
    }
    assert to[..|to|] == to;
  }

  // ---------- the whole message ----------

  /** The next hops the transport table selects for each domain. */
  function Table(routes: seq<Routes.Route>, from: string): string -> seq<Routes.NextHop> {
    domain => Routes.Selected(routes, domain, from)
  }

  /** One outcome per recipient of a group; a result without a recipient list
      speaks for all of them. */
  function Spread(r: DeliveryResult, group: seq<string>): seq<RecipientResult> {
    if r.recipients != [] then r.recipients
    else seq(|group|, i requires 0 <= i < |group| => RecipientResult(group[i], r.success, r.code, r.permanent,
        r.message))
  }

  ghost function DomainOutcomes(hops: seq<Routes.NextHop>, w: World, group: seq<string>): seq<RecipientResult> {
    Spread(DomainResult(hops, w, group), group)
  }

  /** The outcomes of each domain of the message. */
  ghost function Served(
    table: string -> seq<Routes.NextHop>, world: string -> World, to: seq<string>): string -> seq<RecipientResult> {
    domain => DomainOutcomes(table(domain), world(domain), Group(to, domain))
  }

  ghost function GroupsServed(
    table: string -> seq<Routes.NextHop>, world: string -> World, groups: map<string, seq<string>>)
    : string -> seq<RecipientResult>
  {
    domain => if domain in groups then DomainOutcomes(table(domain), world(domain), groups[domain]) else []
  }

  ghost function Concat<T>(pieces: string -> seq<T>, order: seq<string>): seq<T> {
    if order == [] then [] else Concat(pieces, order[..|order| - 1]) + pieces(order[|order| - 1])
  }

  predicate AllSucceeded(outcomes: seq<RecipientResult>) {
    forall o :: o in outcomes ==> o.success
  }

  predicate FailuresPermanent(outcomes: seq<RecipientResult>) {
    forall o :: o in outcomes ==> o.success || o.permanent
  }

  /** The overall result says what its recipient list says. */
  predicate Summarizes(r: DeliveryResult) {
    && (r.success <==> AllSucceeded(r.recipients))
    && (r.permanent <==> !r.success && FailuresPermanent(r.recipients))
    && r.code == (if r.success then 250 else if r.permanent then 550 else 451)
  }

  ghost predicate Enumerates(order: seq<string>, to: seq<string>) {
    Distinct(order) && forall d :: d in order <==> Group(to, d) != []
  }

  /** `order` is the order in which the groups happened to be visited. */
  method Deliver(routes: seq<Routes.Route>, from: string, to: seq<string>, world: string -> World)
    returns (result: Option<DeliveryResult>, ok: bool, order: seq<string>)
    ensures result.None? <==> to == []
    ensures ok <==> result.Some? && result.value.success
    ensures result.Some? ==>
              && Enumerates(order, to)
              && result.value.recipients == Concat(Served(Table(routes, from), world, to), order)
              && Summarizes(result.value)
  {
    order := [];
    if |to| == 0 {
      return None, false, order;
    }
    var groups := GroupByDomain(to);
    var recipients: seq<RecipientResult>;
    var remoteHost: string;
    recipients, remoteHost, order := VisitGroups(routes, from, world, groups);
    ServedByGroup(Table(routes, from), world, to, groups, order);
    assert Enumerates(order, to);
    var aggregate := Summarize(recipients, remoteHost);
    return Some(aggregate), aggregate.success, order;
  }

  predicate Distinct(order: seq<string>) {
    forall i, j :: 0 <= i < j < |order| ==> order[i] != order[j]
  }

  /** `order` lists the members of `all`, each once. */
  ghost predicate Lists(order: seq<string>, all: set<string>) {
    Distinct(order) && forall d :: d in order <==> d in all
  }

  lemma ListsNext(order: seq<string>, all: set<string>, d: string)
    requires Lists(order, all) && d !in all
    ensures Lists(order + [d], all + {d})
  {
    forall x
      ensures x in order + [d] <==> x in all + {d}
    {
      assert x in order + [d] <==> x in order || x == d;
    }
  }

  /** The loop over the groups, in whatever order the map yields them. */
  method VisitGroups(routes: seq<Routes.Route>, from: string, world: string -> World, groups: map<string, seq<string>>)
    returns (recipients: seq<RecipientResult>, remoteHost: string, order: seq<string>)
    ensures Lists(order, groups.Keys)
    ensures recipients == Concat(GroupsServed(Table(routes, from), world, groups), order)
  {
    ghost var served := GroupsServed(Table(routes, from), world, groups);
    order, recipients, remoteHost := [], [], "";
    var rest := groups.Keys;
    while rest != {}
      invariant rest <= groups.Keys
      invariant Lists(order, groups.Keys - rest)
      invariant recipients == Concat(served, order)
    {
      var domain :| domain in rest;
      ListsNext(order, groups.Keys - rest, domain);
      assert groups.Keys - (rest - {domain}) == groups.Keys - rest + {domain};
      rest := rest - {domain};
      var outcomes: seq<RecipientResult>;
      outcomes, remoteHost := DeliverGroup(routes, from, domain, world, groups);
      ConcatLast(served, order, domain);
      recipients := recipients + outcomes;
      order := order + [domain];
    }
    assert groups.Keys - rest == groups.Keys;
  }

  lemma ConcatLast<T>(pieces: string -> seq<T>, order: seq<string>, last: string)
    ensures Concat(pieces, order + [last]) == Concat(pieces, order) + pieces(last)
  {
    assert (order + [last])[..|order|] == order;
  }

  lemma {:induction false} ConcatCongruence<T>(f: string -> seq<T>, g: string -> seq<T>, order: seq<string>)
    requires forall d :: d in order ==> f(d) == g(d)
    ensures Concat(f, order) == Concat(g, order)
  {
    if order != [] {
      ConcatCongruence(f, g, order[..|order| - 1]);
      assert order[|order| - 1] in order;
    }
  }

  lemma ServedByGroup(
    table: string -> seq<Routes.NextHop>, world: string -> World, to: seq<string>, groups: map<string, seq<string>>,
    order: seq<string>)
    requires IsGrouping(groups, to) && Lists(order, groups.Keys)
    ensures Concat(GroupsServed(table, world, groups), order) == Concat(Served(table, world, to), order)
  {
    forall d | d in order
      ensures GroupsServed(table, world, groups)(d) == Served(table, world, to)(d)
    {
      assert d in groups && groups[d] == Group(to, d);
    }
    ConcatCongruence(GroupsServed(table, world, groups), Served(table, world, to), order);
  }

  /** One round of the loop over the groups. */
  method DeliverGroup(
    routes: seq<Routes.Route>, from: string, domain: string, world: string -> World, groups: map<string, seq<string>>)
    returns (outcomes: seq<RecipientResult>, remoteHost: string)
    requires domain in groups
    ensures outcomes == GroupsServed(Table(routes, from), world, groups)(domain)
  {
    var r, success, tried := DeliverToDomain(routes, domain, from, world(domain), groups[domain]);
    remoteHost := r.remoteHost;
    outcomes := FillRecipients(r, groups[domain]);
  }

  method FillRecipients(r: DeliveryResult, group: seq<string>) returns (outcomes: seq<RecipientResult>)
    ensures outcomes == Spread(r, group)
  {
    outcomes := r.recipients;
    if |r.recipients| == 0 {
      for i := 0 to |group|
        invariant |outcomes| == i
        invariant forall k :: 0 <= k < i ==>
                    outcomes[k] == RecipientResult(group[k], r.success, r.code, r.permanent, r.message)
      {
        outcomes := outcomes + [RecipientResult(group[i], r.success, r.code, r.permanent, r.message)];
      }
    }
  }

  method Summarize(recipients: seq<RecipientResult>, remoteHost: string) returns (r: DeliveryResult)
    ensures r.recipients == recipients && r.remoteHost == remoteHost
    ensures Summarizes(r)
  {
    var success, permanent := true, true;
    for i := 0 to |recipients|
      invariant success <==> AllSucceeded(recipients[..i])
      invariant permanent <==> FailuresPermanent(recipients[..i])
    {
      assert recipients[..i + 1] == recipients[..i] + [recipients[i]];
      if !recipients[i].success {
        success := false;
        if !recipients[i].permanent {
          permanent := false;
        }
      }
    }
    assert recipients[..|recipients|] == recipients;
    if !success {
      var code := if permanent then 550 else 451;
      return DeliveryResult(false, code, "Delivery incomplete", permanent, remoteHost, recipients);
    }
    return DeliveryResult(true, 250, "", false, remoteHost, recipients);
  }
}
