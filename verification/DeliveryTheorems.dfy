/** What a delivery run guarantees for every table, recipient list and behaviour
    of DNS and remote hosts. */
module DeliveryTheorems {
  import opened Text
  import opened Smtp
  import opened Delivery
  import Routes

  /** The i-th recipient of the group was accepted by a host that acknowledged the message. */
  ghost predicate Reached(hops: seq<Routes.NextHop>, w: World, group: seq<string>, i: nat) {
    var attempts := Attempts(hops, w);
    exists k :: 0 <= k < Tried(Hosts(hops, w), attempts, group)
                && AckedBy(attempts(k), |group|) && attempts(k).dialogue.rcpt(i).Done?
  }

  lemma {:induction false} DomainOutcomesMeaning(hops: seq<Routes.NextHop>, w: World, group: seq<string>)
    ensures var outcomes := DomainOutcomes(hops, w, group);
            |outcomes| == |group| && forall i :: 0 <= i < |group| ==>
              outcomes[i].recipient == group[i] && (outcomes[i].success <==> Reached(hops, w, group, i))
  {
    var hosts, attempts := Hosts(hops, w), Attempts(hops, w);
    var none := if hops != [] then NoHop else NoMx;
    AtMostOneAcknowledgement(hosts, attempts, group, none);
    var j := FirstEnd(attempts, group, 0, |hosts|);
    if j < |hosts| {
      TransactionMeaning(attempts(j).dialogue, hosts[j], group);
      assert Tried(hosts, attempts, group) == j + 1;
    }
  }

  function Names(outcomes: seq<RecipientResult>): seq<string> {
    seq(|outcomes|, i requires 0 <= i < |outcomes| => outcomes[i].recipient)
  }

  function Groups(to: seq<string>): string -> seq<string> {
    domain => Group(to, domain)
  }

  lemma NamesAppend(a: seq<RecipientResult>, b: seq<RecipientResult>)
    ensures Names(a + b) == Names(a) + Names(b)
  {
  }

  lemma {:induction false} NamesOfConcat(
    pieces: string -> seq<RecipientResult>, groups: string -> seq<string>, order: seq<string>)
    requires forall d :: d in order ==> Names(pieces(d)) == groups(d)
    ensures Names(Concat(pieces, order)) == Concat(groups, order)
  {
    if order != [] {
      var rest, d := order[..|order| - 1], order[|order| - 1];
      NamesOfConcat(pieces, groups, rest);
      assert d in order;
      NamesAppend(Concat(pieces, rest), pieces(d));
    }
  }

  lemma NamesOfDomain(table: string -> seq<Routes.NextHop>, world: string -> World, to: seq<string>, d: string)
    ensures Names(Served(table, world, to)(d)) == Groups(to)(d)
  {
    DomainOutcomesMeaning(table(d), world(d), Group(to, d));
  }

  lemma {:induction false} NamesOfServed(
    table: string -> seq<Routes.NextHop>, world: string -> World, to: seq<string>, order: seq<string>)
    ensures Names(Concat(Served(table, world, to), order)) == Concat(Groups(to), order)
  {
    forall d | d in order
      ensures Names(Served(table, world, to)(d)) == Groups(to)(d)
    {
      NamesOfDomain(table, world, to, d);
    }
    NamesOfConcat(Served(table, world, to), Groups(to), order);
  }

  lemma {:induction false} OneMoreRecipient(to: seq<string>, x: string, order: seq<string>)
    requires Distinct(order)
    ensures multiset(Concat(Groups(to + [x]), order)) ==
              multiset(Concat(Groups(to), order))
                  + (if WellFormed(x) && DomainOf(x) in order then multiset{x} else multiset{})
  {
    if order != [] {
      var d, rest := order[|order| - 1], order[..|order| - 1];
      OneMoreRecipient(to, x, rest);
      assert (to + [x])[..|to|] == to;
      assert Groups(to + [x])(d) == Groups(to)(d) + (if InDomain(x, d) then [x] else []);
      assert order == rest + [d];
      assert d !in rest;
    }
  }

  lemma {:induction false} GroupsPartition(to: seq<string>, order: seq<string>)
    requires Distinct(order)
    requires forall x :: x in to && WellFormed(x) ==> DomainOf(x) in order
    ensures multiset(Concat(Groups(to), order)) == multiset(Usable(to))
  {
    if to == [] {
      NoGroups(order);
    } else {
      var last, rest := to[|to| - 1], to[..|to| - 1];
      GroupsPartition(rest, order);
      OneMoreRecipient(rest, last, order);
      assert to == rest + [last];
    }
  }

  lemma {:induction false} NoGroups(order: seq<string>)
    ensures Concat(Groups([]), order) == []
  {
    if order != [] { NoGroups(order[..|order| - 1]); }
  }

  lemma {:induction false} GroupHas(to: seq<string>, x: string)
    requires x in to && WellFormed(x)
    ensures Group(to, DomainOf(x)) != []
  {
    var last, rest := to[|to| - 1], to[..|to| - 1];
    if x != last {
      assert to == rest + [last];
      GroupHas(rest, x);
    }
  }

  lemma {:induction false} UsableMembers(to: seq<string>, x: string)
    ensures x in Usable(to) <==> x in to && WellFormed(x)
  {
    if to != [] {
      var last, rest := to[|to| - 1], to[..|to| - 1];
      assert to == rest + [last];
      UsableMembers(rest, x);
    }
  }

  /** Conservation: exactly one outcome for every usable recipient, whatever the
      network does and in whatever order the domains are visited. */
  lemma {:induction false} OneOutcomePerRecipient(
    table: string -> seq<Routes.NextHop>, world: string -> World, to: seq<string>, order: seq<string>)
    requires Enumerates(order, to)
    ensures multiset(Names(Concat(Served(table, world, to), order))) == multiset(Usable(to))
  {
    NamesOfServed(table, world, to, order);
    forall x | x in to && WellFormed(x)
      ensures DomainOf(x) in order
    {
      GroupHas(to, x);
    }
    GroupsPartition(to, order);
  }

  /** The attempt `k` for domain `d` ended with an acknowledged message. */
  ghost predicate Acknowledgement(
    table: string -> seq<Routes.NextHop>, world: string -> World, to: seq<string>, d: string, k: nat) {
    var attempts := Attempts(table(d), world(d));
    k < Tried(Hosts(table(d), world(d)), attempts, Group(to, d)) && AckedBy(attempts(k), |Group(to, d)|)
  }

  /** Within one call the message is acknowledged at most once for each domain, by
      the last host tried for it, and once exactly when the domain's result is a
      success. */
  lemma {:induction false} OneAcknowledgementPerDomain(
    table: string -> seq<Routes.NextHop>, world: string -> World, to: seq<string>, d: string)
    ensures forall k: nat :: Acknowledgement(table, world, to, d, k) ==>
              k + 1 == Tried(Hosts(table(d), world(d)), Attempts(table(d), world(d)), Group(to, d))
    ensures (exists k: nat :: Acknowledgement(table, world, to, d, k))
            <==> DomainResult(table(d), world(d), Group(to, d)).success
  {
    var hosts, attempts, group := Hosts(table(d), world(d)), Attempts(table(d), world(d)), Group(to, d);
    AtMostOneAcknowledgement(hosts, attempts, group, if table(d) != [] then NoHop else NoMx);
    forall k: nat | Acknowledgement(table, world, to, d, k)
      ensures k + 1 == Tried(hosts, attempts, group)
    {
      assert Ends(attempts(k), group);
    }
    if k :| 0 <= k < Tried(hosts, attempts, group) && AckedBy(attempts(k), |group|) {
      assert Acknowledgement(table, world, to, d, k);
    }
  }

  /** Where each outcome comes from, and what its success flag means. */
  lemma {:induction false} SuccessMeansAcknowledged(
    table: string -> seq<Routes.NextHop>, world: string -> World, to: seq<string>, order: seq<string>, p: nat)
    returns (d: string, i: nat)
    requires p < |Concat(Served(table, world, to), order)|
    ensures d in order && i < |Group(to, d)|
    ensures var o := Concat(Served(table, world, to), order)[p];
            o.recipient == Group(to, d)[i] && (o.success <==> Reached(table(d), world(d), Group(to, d), i))
  {
    d, i := Locate(Served(table, world, to), order, p);
    DomainOutcomesMeaning(table(d), world(d), Group(to, d));
  }

  lemma {:induction false} Locate<T>(pieces: string -> seq<T>, order: seq<string>, p: nat) returns (d: string, i: nat)
    requires p < |Concat(pieces, order)|
    ensures d in order && i < |pieces(d)| && Concat(pieces, order)[p] == pieces(d)[i]
  {
    var rest := order[..|order| - 1];
    if p < |Concat(pieces, rest)| {
      d, i := Locate(pieces, rest, p);
      assert order == rest + [order[|order| - 1]];
    } else {
      d, i := order[|order| - 1], p - |Concat(pieces, rest)|;
    }
  }

  lemma NamedOutcome(outcomes: seq<RecipientResult>, x: string)
    ensures x in Names(outcomes) <==> exists o :: o in outcomes && o.recipient == x
  {
    if x in Names(outcomes) {
      var k :| 0 <= k < |outcomes| && Names(outcomes)[k] == x;
      assert outcomes[k] in outcomes && outcomes[k].recipient == x;
    }
    if o :| o in outcomes && o.recipient == x {
      var k :| 0 <= k < |outcomes| && outcomes[k] == o;
      assert Names(outcomes)[k] == x;
    }
  }

  ghost predicate Delivered(outcomes: seq<RecipientResult>, x: string) {
    exists o :: o in outcomes && o.recipient == x && o.success
  }

  lemma {:induction false} DeliveredIffUsable(outcomes: seq<RecipientResult>, to: seq<string>, x: string)
    requires multiset(Names(outcomes)) == multiset(Usable(to)) && AllSucceeded(outcomes) && x in to
    ensures Delivered(outcomes, x) <==> WellFormed(x)
  {
    UsableMembers(to, x);
    NamedOutcome(outcomes, x);
    assert x in Usable(to) <==> x in multiset(Usable(to));
    assert x in Names(outcomes) <==> x in multiset(Names(outcomes));
  }

  /** An overall success covers every address it was asked to reach exactly when
      none of them was malformed: malformed addresses are dropped in silence. */
  lemma {:induction false} SuccessCoversEveryone(
    table: string -> seq<Routes.NextHop>, world: string -> World, to: seq<string>, order: seq<string>)
    requires Enumerates(order, to) && AllSucceeded(Concat(Served(table, world, to), order))
    ensures (forall x :: x in to ==> Delivered(Concat(Served(table, world, to), order), x))
            <==> (forall x :: x in to ==> WellFormed(x))
  {
    OneOutcomePerRecipient(table, world, to, order);
    forall x | x in to
      ensures Delivered(Concat(Served(table, world, to), order), x) <==> WellFormed(x)
    {
      DeliveredIffUsable(Concat(Served(table, world, to), order), to, x);
    }
  }

  /** The failing family: a list of malformed addresses only is reported as
      delivered with code 250 although nothing was sent. */
  lemma {:induction false} OnlyMalformedIsReportedDelivered(
    table: string -> seq<Routes.NextHop>, world: string -> World, to: seq<string>, order: seq<string>,
    r: DeliveryResult)
    requires forall x :: x in to ==> !WellFormed(x)
    requires Enumerates(order, to) && r.recipients == Concat(Served(table, world, to), order) && Summarizes(r)
    ensures r.success && r.code == 250 && r.recipients == []
  {
    OneOutcomePerRecipient(table, world, to, order);
    if Usable(to) != [] { UsableMembers(to, Usable(to)[0]); }
    assert |r.recipients| == |multiset(Names(r.recipients))|;
  }

  /** One such list. */
  lemma MalformedExample(table: string -> seq<Routes.NextHop>, world: string -> World)
    ensures Enumerates([], ["x"]) && AllSucceeded(Concat(Served(table, world, ["x"]), []))
    ensures !WellFormed("x") && !Delivered(Concat(Served(table, world, ["x"]), []), "x")
  {
    WellFormedMeansOneAt("x");
    assert Group(["x"][..0], "") == [] && ["x"][..0] == [];
  }

  // ---------- what a failure means ----------

  /** The dialogue rejects the i-th recipient with a code of the five hundreds: at
      MAIL, at its own RCPT, or at the transfer. */
  ghost predicate RejectedBy(d: Dialogue, i: nat) {
    if d.mail.Refused? then FiveHundred(d.mail.text) else exists text :: Decided(d, i, text) && FiveHundred(text)
  }

  /** The i-th recipient of the group cannot be reached by trying again: DNS says
      so, or the host that ended the search. */
  ghost predicate GoneForGood(hops: seq<Routes.NextHop>, w: World, group: seq<string>, i: nat) {
    var attempts := Attempts(hops, w);
    || (hops == [] && w.lookup.LookupFailed? && w.lookup.permanent)
    || exists k: nat :: EndedBy(hops, w, group, k) && RejectedBy(attempts(k).dialogue, i)
  }

  /** The k-th host was tried and ended the search. */
  ghost predicate EndedBy(hops: seq<Routes.NextHop>, w: World, group: seq<string>, k: nat) {
    k < Tried(Hosts(hops, w), Attempts(hops, w), group) && Ends(Attempts(hops, w)(k), group)
  }

  lemma {:induction false} RejectedMeaning(d: Dialogue, host: string, group: seq<string>, i: nat)
    requires i < |group| && !Spread(Transaction(d, host, group), group)[i].success
    requires Acknowledged(d, |group|) || RefusedForever(d, |group|)
    ensures Spread(Transaction(d, host, group), group)[i].permanent <==> RejectedBy(d, i)
  {
    TransactionMeaning(d, host, group);
    ResultMeaning(d, host, group);
    if d.mail.Refused? {
      PermanentMeansFiveHundred(d.mail.text);
    } else {
      var text := FailedRecipientMeaning(d, host, group, i);
    }
  }

  /** A failed outcome is permanent exactly when the recipient is gone for good. */
  lemma {:induction false} DomainFailuresMeaning(hops: seq<Routes.NextHop>, w: World, group: seq<string>, i: nat)
    requires i < |group| && |DomainOutcomes(hops, w, group)| == |group| && !DomainOutcomes(hops, w, group)[i].success
    ensures DomainOutcomes(hops, w, group)[i].permanent <==> GoneForGood(hops, w, group, i)
  {
    var hosts, attempts := Hosts(hops, w), Attempts(hops, w);
    var tried := Tried(hosts, attempts, group);
    ResultOfLast(hosts, attempts, group, if hops != [] then NoHop else NoMx);
    AtMostOneAcknowledgement(hosts, attempts, group, if hops != [] then NoHop else NoMx);
    if tried > 0 && Ends(attempts(tried - 1), group) {
      assert EndedBy(hops, w, group, tried - 1);
      RejectedMeaning(attempts(tried - 1).dialogue, hosts[tried - 1], group, i);
    }
    forall k: nat | EndedBy(hops, w, group, k)
      ensures k == tried - 1
    {
    }
  }

  lemma {:induction false} Place<T>(pieces: string -> seq<T>, order: seq<string>, d: string, i: nat) returns (p: nat)
    requires d in order && i < |pieces(d)|
    ensures p < |Concat(pieces, order)| && Concat(pieces, order)[p] == pieces(d)[i]
  {
    var rest, last := order[..|order| - 1], order[|order| - 1];
    assert order == rest + [last];
    if d == last {
      p := |Concat(pieces, rest)| + i;
    } else {
      p := Place(pieces, rest, d, i);
    }
  }

  ghost predicate Settled(
    table: string -> seq<Routes.NextHop>, world: string -> World, to: seq<string>, d: string, i: nat) {
    Reached(table(d), world(d), Group(to, d), i) || GoneForGood(table(d), world(d), Group(to, d), i)
  }

  lemma {:induction false} OutcomeSettled(
    table: string -> seq<Routes.NextHop>, world: string -> World, to: seq<string>, d: string, i: nat)
    requires i < |Group(to, d)|
    ensures i < |Served(table, world, to)(d)|
    ensures var o := Served(table, world, to)(d)[i];
            (o.success || o.permanent) <==> Settled(table, world, to, d, i)
  {
    DomainOutcomesMeaning(table(d), world(d), Group(to, d));
    if !Served(table, world, to)(d)[i].success { DomainFailuresMeaning(table(d), world(d), Group(to, d), i); }
  }

  /** The whole message is a permanent failure exactly when it is a failure and
      every recipient was reached or is gone for good; the code says which. */
  lemma {:induction false} PermanentMeansNoRetryHelps(
    table: string -> seq<Routes.NextHop>, world: string -> World, to: seq<string>, order: seq<string>,
    r: DeliveryResult)
    requires r.recipients == Concat(Served(table, world, to), order) && Summarizes(r)
    ensures r.permanent <==>
              !r.success && forall d, i: nat :: d in order && i < |Group(to, d)| ==> Settled(table, world, to, d, i)
    ensures r.code == if r.success then 250 else if r.permanent then 550 else 451
  {
    forall d, i: nat | d in order && i < |Group(to, d)| && FailuresPermanent(r.recipients)
      ensures Settled(table, world, to, d, i)
    {
      OutcomeSettled(table, world, to, d, i);
      var p := Place(Served(table, world, to), order, d, i);
      assert r.recipients[p] in r.recipients;
    }
    if forall d, i: nat :: d in order && i < |Group(to, d)| ==> Settled(table, world, to, d, i) {
      forall o | o in r.recipients
        ensures o.success || o.permanent
      {
        var p :| 0 <= p < |r.recipients| && r.recipients[p] == o;
        var d, i := Locate(Served(table, world, to), order, p);
        DomainOutcomesMeaning(table(d), world(d), Group(to, d));
        OutcomeSettled(table, world, to, d, i);
      }
    }
  }
}
