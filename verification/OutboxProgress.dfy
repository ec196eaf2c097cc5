/** Dispatching makes progress: while hooks accept, due rows are sent, 32 a round. */
module OutboxProgress {
  import opened Counting
  import opened Text
  import opened Outbox

  /** One dispatch in which every post is accepted and recorded. */
  datatype Round = Round(now: int, batch: seq<Item>, answers: nat -> Answer, clock: nat -> int)

  ghost predicate AllAccepted(hooks: seq<string>, r: Round) {
    forall i: nat :: i < |r.batch| ==> Accepted(hooks, r.batch[i].key.destination, r.answers(i))
  }

  function AfterRound(db: Db, hooks: seq<string>, r: Round): Db {
    AfterDispatch(db, hooks, r.batch, r.answers, r.clock, |r.batch|)
  }

  function AfterRounds(db: Db, hooks: seq<string>, rounds: seq<Round>): Db
    decreases |rounds|
  {
    if rounds == [] then db else AfterRounds(AfterRound(db, hooks, rounds[0]), hooks, rounds[1..])
  }

  /** Each round dispatches what the query returns at a time between the two given. */
  ghost predicate GoodRounds(db: Db, hooks: seq<string>, rounds: seq<Round>, from: int, until: int)
    decreases |rounds|
  {
    rounds == []
    || (from <= rounds[0].now <= until && Selection(db, rounds[0].now, rounds[0].batch) && AllAccepted(hooks, rounds[0])
        && GoodRounds(AfterRound(db, hooks, rounds[0]), hooks, rounds[1..], from, until))
  }

  /** The rows a query at that time may return. */
  function Due(db: Db, now: int): set<Key> {
    set k | k in db.deliveries && Eligible(db, k, now)
  }

  function Keys(items: seq<Item>, n: nat): set<Key>
    requires n <= |items|
  {
    if n == 0 then {} else Keys(items, n - 1) + {items[n - 1].key}
  }

  lemma {:induction false} KeysOf(items: seq<Item>, n: nat, k: Key)
    requires n <= |items|
    ensures k in Keys(items, n) <==> exists i :: 0 <= i < n && items[i].key == k
  {
    if n > 0 { KeysOf(items, n - 1, k); }
  }

  lemma {:induction false} DistinctKeys(items: seq<Item>, n: nat)
    requires n <= |items| && forall i, j :: 0 <= i < j < |items| ==> items[i].key != items[j].key
    ensures |Keys(items, n)| == n
  {
    if n > 0 {
      DistinctKeys(items, n - 1);
      KeysOf(items, n - 1, items[n - 1].key);
    }
  }

  /** The accepted items are sent, and nothing else changes. */
  ghost predicate SentExactly(before: Db, after: Db, keys: set<Key>) {
    && after.events == before.events && after.deliveries.Keys == before.deliveries.Keys
    && (forall k :: k in before.deliveries && k in keys ==> after.deliveries[k].state == Sent)
    && (forall k :: k in before.deliveries && k !in keys ==> after.deliveries[k] == before.deliveries[k])
  }

  lemma {:induction false} DispatchSends(db: Db, hooks: seq<string>, r: Round, n: nat)
    requires n <= |r.batch| && AllAccepted(hooks, r)
    requires forall i :: 0 <= i < |r.batch| ==> r.batch[i].key in db.deliveries
    ensures SentExactly(db, AfterDispatch(db, hooks, r.batch, r.answers, r.clock, n), Keys(r.batch, n))
  {
    if n > 0 { DispatchSends(db, hooks, r, n - 1); }
  }

  /** A round sends its batch: what was due is due no more exactly for its keys. */
  lemma {:induction false} RoundSends(db: Db, hooks: seq<string>, r: Round)
    requires Selection(db, r.now, r.batch) && AllAccepted(hooks, r)
    ensures SentExactly(db, AfterRound(db, hooks, r), Keys(r.batch, |r.batch|))
    ensures forall t :: Due(AfterRound(db, hooks, r), t) == Due(db, t) - Keys(r.batch, |r.batch|)
  {
    forall i | 0 <= i < |r.batch|
      ensures r.batch[i].key in db.deliveries
    {
      assert Eligible(db, r.batch[i].key, r.now);
    }
    DispatchSends(db, hooks, r, |r.batch|);
    var after := AfterRound(db, hooks, r);
    forall t
      ensures Due(after, t) == Due(db, t) - Keys(r.batch, |r.batch|)
    {
      DueAfter(db, after, Keys(r.batch, |r.batch|), t);
    }
  }

  lemma DueAfter(before: Db, after: Db, keys: set<Key>, t: int)
    requires SentExactly(before, after, keys)
    ensures Due(after, t) == Due(before, t) - keys
  {
    forall k
      ensures k in Due(after, t) <==> k in Due(before, t) && k !in keys
    {
    }
  }

  /** A full batch takes 32 of the rows due later on; a smaller one takes every row
      that is due now. */
  lemma {:induction false} RoundShrinks(db: Db, hooks: seq<string>, r: Round, from: int, until: int)
    requires Selection(db, r.now, r.batch) && AllAccepted(hooks, r) && from <= r.now <= until
    ensures var after := AfterRound(db, hooks, r);
            Due(after, from) == {} || |Due(after, until)| + BatchSize == |Due(db, until)|
  {
    var keys := Keys(r.batch, |r.batch|);
    RoundSends(db, hooks, r);
    DistinctKeys(r.batch, |r.batch|);
    forall k
      ensures k in keys <==> IsSelected(r.batch, k)
    {
      KeysOf(r.batch, |r.batch|, k);
    }
    if |r.batch| == BatchSize {
      forall k | k in keys
        ensures k in Due(db, until)
      {
        var i :| 0 <= i < |r.batch| && r.batch[i].key == k;
        assert Eligible(db, r.batch[i].key, r.now);
      }
      assert keys <= Due(db, until);
      assert |Due(db, until) - keys| == |Due(db, until)| - |keys|;
    } else {
      forall k | k in Due(db, from)
        ensures k in keys
      {
        assert Eligible(db, k, r.now);
      }
      assert Due(db, from) - keys == {};
    }
  }

  /** Nothing falls due in a round. */
  lemma {:induction false} StaysSettled(db: Db, hooks: seq<string>, rounds: seq<Round>, from: int, until: int)
    requires GoodRounds(db, hooks, rounds, from, until) && Due(db, from) == {}
    ensures Due(AfterRounds(db, hooks, rounds), from) == {}
    decreases |rounds|
  {
    if rounds != [] {
      RoundSends(db, hooks, rounds[0]);
      StaysSettled(AfterRound(db, hooks, rounds[0]), hooks, rounds[1..], from, until);
    }
  }

  /** With at least one round for every 32 rows that are due by the last of them,
      no row that was due before the first is left. */
  lemma {:induction false} EnoughRoundsSettle(db: Db, hooks: seq<string>, rounds: seq<Round>, from: int, until: int)
    requires GoodRounds(db, hooks, rounds, from, until) && from <= until && |Due(db, until)| <= BatchSize * |rounds|
    ensures Due(AfterRounds(db, hooks, rounds), from) == {}
    decreases |rounds|
  {
    if rounds == [] {
      DueLater(db, from, until);
    } else {
      var after := AfterRound(db, hooks, rounds[0]);
      RoundShrinks(db, hooks, rounds[0], from, until);
      if Due(after, from) == {} {
        StaysSettled(after, hooks, rounds[1..], from, until);
      } else {
        EnoughRoundsSettle(after, hooks, rounds[1..], from, until);
      }
    }
  }

  lemma DueLater(db: Db, from: int, until: int)
    requires from <= until
    ensures Due(db, from) <= Due(db, until)
  {
    forall k | k in Due(db, from)
      ensures k in Due(db, until)
    {
    }
  }

  /** A row that was due and is so no more has been sent. */
  lemma {:induction false} DueOrSent(db: Db, hooks: seq<string>, rounds: seq<Round>, from: int, until: int, k: Key)
    requires GoodRounds(db, hooks, rounds, from, until) && k in db.deliveries
    requires k in Due(db, from) || db.deliveries[k].state == Sent
    ensures var after := AfterRounds(db, hooks, rounds);
            k in after.deliveries && (k in Due(after, from) || after.deliveries[k].state == Sent)
    decreases |rounds|
  {
    if rounds != [] {
      RoundSends(db, hooks, rounds[0]);
      DueOrSent(AfterRound(db, hooks, rounds[0]), hooks, rounds[1..], from, until, k);
    }
  }

  /** Progress: while hooks accept, one dispatch for every 32 due rows sends every
      row that was due when the first began. */
  lemma {:induction false} DueRowsAreSent(db: Db, hooks: seq<string>, rounds: seq<Round>, from: int, until: int, k: Key)
    requires GoodRounds(db, hooks, rounds, from, until) && from <= until && |Due(db, until)| <= BatchSize * |rounds|
    requires k in Due(db, from)
    ensures var after := AfterRounds(db, hooks, rounds);
            k in after.deliveries && after.deliveries[k].state == Sent
  {
    EnoughRoundsSettle(db, hooks, rounds, from, until);
    DueOrSent(db, hooks, rounds, from, until, k);
  }
}
