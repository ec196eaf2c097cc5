/** The durable webhook outbox. The two SQL tables are maps; times are Unix seconds. */
module Outbox {
  import opened Counting
  import opened Text

  datatype Payload = Payload(principal: string, verb: string, path: string, status: int, completed: bool)

  datatype EventRow = EventRow(payload: Payload, ready: bool, created: int)

  datatype RowState = Pending | Sent | Dead

  datatype Delivery = Delivery(attempts: nat, due: int, state: RowState)

  /** The primary key of a delivery row. */
  datatype Key = Key(event: string, destination: string)

  datatype Db = Db(events: map<string, EventRow>, deliveries: map<Key, Delivery>)

  /** A row the dispatcher has read. */
  datatype Item = Item(key: Key, attempt: nat, payload: Payload)

  const MaxEvents := 10000
  const MaxAttempts := 10
  const BatchSize := 32
  const Retention := 7 * 24 * 3600

  // ---------- begin ----------

  /** No delivery of the event is outstanding. */
  predicate Settled(db: Db, event: string) {
    forall k :: k in db.deliveries && k.event == event ==> db.deliveries[k].state == Sent
  }

  function Purge(db: Db, cutoff: int): Db {
    var events := map e | e in db.events && !(db.events[e].created < cutoff && Settled(db, e)) :: db.events[e];
    Db(events, map k | k in db.deliveries && k.event in events :: db.deliveries[k])
  }

  /** The rows after one insert for each of the first `n` hooks. */
  function WithRows(rows: map<Key, Delivery>, id: string, hooks: seq<string>, n: nat): map<Key, Delivery>
    requires n <= |hooks|
  {
    if n == 0 then rows else WithRows(rows, id, hooks, n - 1)[Key(id, hooks[n - 1]) := Delivery(0, 0, Pending)]
  }

  predicate NewKey(k: Key, id: string, hooks: seq<string>, n: nat)
    requires n <= |hooks|
  {
    k.event == id && exists i :: 0 <= i < n && hooks[i] == k.destination
  }

  lemma {:induction false} WithRowsAt(rows: map<Key, Delivery>, id: string, hooks: seq<string>, n: nat, k: Key)
    requires n <= |hooks|
    ensures k in WithRows(rows, id, hooks, n) <==> k in rows || NewKey(k, id, hooks, n)
    ensures NewKey(k, id, hooks, n) ==> WithRows(rows, id, hooks, n)[k] == Delivery(0, 0, Pending)
    ensures k in rows && !NewKey(k, id, hooks, n) ==> WithRows(rows, id, hooks, n)[k] == rows[k]
  {
    if n > 0 {
      WithRowsAt(rows, id, hooks, n - 1, k);
      if k == Key(id, hooks[n - 1]) { assert hooks[n - 1] == k.destination; }
    }
  }

  /** The first `n` hooks can be inserted: no key is taken and none comes twice. */
  predicate Insertable(id: string, hooks: seq<string>, rows: map<Key, Delivery>, n: nat)
    requires n <= |hooks|
  {
    && (forall i :: 0 <= i < n ==> Key(id, hooks[i]) !in rows)
    && (forall i, j :: 0 <= i < j < n ==> hooks[i] != hooks[j])
  }

  lemma InsertableNext(id: string, hooks: seq<string>, rows: map<Key, Delivery>, n: nat)
    requires n < |hooks| && Insertable(id, hooks, rows, n)
    ensures Insertable(id, hooks, rows, n + 1) <==> Key(id, hooks[n]) !in WithRows(rows, id, hooks, n)
  {
    WithRowsAt(rows, id, hooks, n, Key(id, hooks[n]));
  }

  lemma NotInsertable(id: string, hooks: seq<string>, rows: map<Key, Delivery>, n: nat)
    requires n <= |hooks| && !Insertable(id, hooks, rows, n)
    ensures !Insertable(id, hooks, rows, |hooks|)
  {
  }

  /** None is an error, after which the transaction is rolled back. */
  function AfterBegin(db: Db, hooks: seq<string>, id: string, payload: Payload, created: int, now: int): Option<Db> {
    var kept := Purge(db, now - Retention);
    if |kept.events| >= MaxEvents || id in kept.events || !Insertable(id, hooks, kept.deliveries, |hooks|) then None
    else Some(Db(kept.events[id := EventRow(payload, false, created)], WithRows(kept.deliveries, id, hooks, |hooks|)))
  }

  // ---------- finish, retry, reopen ----------

  function AfterFinish(db: Db, id: string, status: int): Db {
    if id !in db.events then db
    else
      var row := db.events[id];
      db.(events := db.events[id := row.(payload := row.payload.(status := status, completed := true), ready := true)])
  }

  function AfterRetry(db: Db): Db {
    db.(deliveries := map k | k in db.deliveries ::
      if db.deliveries[k].state == Dead then Delivery(0, 0, Pending) else db.deliveries[k])
  }

  /** Opening the file marks what a crash left unfinished as ready. */
  function AfterReopen(db: Db): Db {
    db.(events := map e | e in db.events :: db.events[e].(ready := true))
  }

  // ---------- dispatch ----------

  predicate Eligible(db: Db, k: Key, now: int) {
    && k in db.deliveries && db.deliveries[k].state == Pending && db.deliveries[k].due <= now
    && k.event in db.events && db.events[k.event].ready
  }

  predicate IsSelected(items: seq<Item>, k: Key) {
    exists i :: 0 <= i < |items| && items[i].key == k
  }

  /** The rows the query may return: at most 32 eligible ones, oldest event first,
      and none left out that is older than one of them. */
  ghost predicate Selection(db: Db, now: int, items: seq<Item>) {
    && |items| <= BatchSize
    && (forall i, j :: 0 <= i < j < |items| ==> items[i].key != items[j].key)
    && (forall i :: 0 <= i < |items| ==>
          && Eligible(db, items[i].key, now)
          && items[i].attempt == db.deliveries[items[i].key].attempts
          && items[i].payload == db.events[items[i].key.event].payload)
    && (forall i, j :: 0 <= i < j < |items| ==>
          items[i].key.event in db.events && items[j].key.event in db.events
          && db.events[items[i].key.event].created <= db.events[items[j].key.event].created)
    && (forall k, i :: Eligible(db, k, now) && 0 <= i < |items| && items[i].key.event in db.events ==>
          IsSelected(items, k) || db.events[items[i].key.event].created <= db.events[k.event].created)
    && (|items| < BatchSize ==> forall k :: Eligible(db, k, now) ==> IsSelected(items, k))
  }

  function RetryDelay(attempt: nat): nat {
    Pow2(if attempt < 12 then attempt else 12)
  }

  function AfterDelivery(db: Db, item: Item, sent: bool, now: int): Db {
    if item.key !in db.deliveries then db
    else
      var attempt := item.attempt + 1;
      db.(deliveries := db.deliveries[item.key :=
        Delivery(attempt, now + RetryDelay(attempt),
                 if sent then Sent else if attempt >= MaxAttempts then Dead else Pending)])
  }

  /** What the hook's server and the environment answer for one item. */
  datatype Answer = Answer(secretOk: bool, requestOk: bool, status: Option<int>)

  predicate Accepted(hooks: seq<string>, destination: string, a: Answer) {
    destination in hooks && a.secretOk && a.requestOk && a.status.Some? && 200 <= a.status.value < 300
  }

  /** The first `n` items posted and recorded in order; the i-th at time `clock(i)`. */
  function AfterDispatch(
    db: Db, hooks: seq<string>, items: seq<Item>, answers: nat -> Answer, clock: nat -> int, n: nat): Db
    requires n <= |items|
  {
    if n == 0 then db
    else
      var before := AfterDispatch(db, hooks, items, answers, clock, n - 1);
      AfterDelivery(before, items[n - 1], Accepted(hooks, items[n - 1].key.destination, answers(n - 1)), clock(n - 1))
  }

  /** The first of the items `i..n` that is not recorded, or `n`: its turn comes
      after the end of the context, or its update fails. */
  function Recorded(live: nat -> bool, updates: nat -> bool, i: nat, n: nat): (j: nat)
    requires i <= n
    ensures i <= j <= n && (j < n ==> !live(j) || !updates(j))
    ensures forall k :: i <= k < j ==> live(k) && updates(k)
    decreases n - i
  {
    if i == n || !live(i) || !updates(i) then i else Recorded(live, updates, i + 1, n)
  }

  // ---------- the object ----------

  class Box {
    var events: map<string, EventRow>
    var deliveries: map<Key, Delivery>
    var hooks: seq<string>

    ghost function View(): Db
      reads this
    {
      Db(events, deliveries)
    }

    constructor (hooks: seq<string>)
      ensures View() == Db(map[], map[]) && this.hooks == hooks
    {
      events, deliveries, this.hooks := map[], map[], hooks;
    }

    method Reopen(hooks: seq<string>)
      modifies this
      ensures View() == AfterReopen(old(View())) && this.hooks == hooks
    {
      events := map e | e in events :: if events[e].ready then events[e] else events[e].(ready := true);
      this.hooks := hooks;
    }

    /** `id` is the new identifier; on failure nothing is committed. */
    method Begin(id: string, payload: Payload, now: int, created: int) returns (ok: bool)
      modifies this`events, this`deliveries
      ensures var r := AfterBegin(old(View()), hooks, id, payload, created, now);
              ok == r.Some? && View() == if ok then r.value else old(View())
    {
      var cutoff := now - Retention;
      var keptEvents := map e | e in events
          && !(events[e].created < cutoff && Settled(Db(events, deliveries), e)) :: events[e];
      var rows := map k | k in deliveries && k.event in keptEvents :: deliveries[k];
      assert Db(keptEvents, rows) == Purge(old(View()), cutoff);
      if |keptEvents| >= MaxEvents {
        return false;
      }
      if id in keptEvents {
        return false;
      }
      var inserted: bool;
      inserted, rows := InsertRows(id, hooks, rows);
      if !inserted {
        return false;
      }
      events := keptEvents[id := EventRow(payload, false, created)];
      deliveries := rows;
      return true;
    }

    /** One insert per hook; a repeated key is an error. */
    static method InsertRows(
      id: string, hooks: seq<string>, rows: map<Key, Delivery>) returns (ok: bool, out: map<Key, Delivery>)
      ensures ok <==> Insertable(id, hooks, rows, |hooks|)
      ensures ok ==> out == WithRows(rows, id, hooks, |hooks|)
    {
      out := rows;
      for i := 0 to |hooks|
        invariant Insertable(id, hooks, rows, i)
        invariant out == WithRows(rows, id, hooks, i)
      {
        var k := Key(id, hooks[i]);
        InsertableNext(id, hooks, rows, i);
        if k in out {
          NotInsertable(id, hooks, rows, i + 1);
          return false, out;
        }
        out := out[k := Delivery(0, 0, Pending)];
      }
      return true, out;
    }

    method Finish(id: string, status: int) returns (ok: bool)
      modifies this`events
      ensures ok <==> id in old(events)
      ensures View() == AfterFinish(old(View()), id, status)
    {
      if id !in events {
        return false;
      }
      var row := events[id];
      row := row.(payload := row.payload.(status := status));
      row := row.(payload := row.payload.(completed := true));
      events := events[id := row.(ready := true)];
      return true;
    }

    method Retry()
      modifies this`deliveries
      ensures View() == AfterRetry(old(View()))
    {
      deliveries := map k | k in deliveries ::
        if deliveries[k].state == Dead then deliveries[k].(attempts := 0, due := 0, state := Pending)
            else deliveries[k];
    }

    /** `items` are the rows the query returned. An item whose update fails has
        been posted all the same, and its row is as it was. */
    method Dispatch(
      items: seq<Item>, answers: nat -> Answer, clock: nat -> int, live: nat -> bool, updates: nat -> bool)
      returns (ok: bool, posted: seq<bool>)
      modifies this`deliveries
      ensures var n := Recorded(live, updates, 0, |items|);
              && View() == AfterDispatch(old(View()), hooks, items, answers, clock, n)
              && (ok <==> n == |items|)
              && |posted| == if n < |items| && live(n) then n + 1 else n
      ensures forall i :: 0 <= i < |posted| ==> posted[i] == Accepted(hooks, items[i].key.destination, answers(i))
    {
      posted := [];
      for i := 0 to |items|
        invariant Recorded(live, updates, 0, |items|) == Recorded(live, updates, i, |items|)
        invariant View() == AfterDispatch(old(View()), hooks, items, answers, clock, i) && |posted| == i
        invariant forall k :: 0 <= k < i ==> posted[k] == Accepted(hooks, items[k].key.destination, answers(k))
      {
        if !live(i) {
          return false, posted;
        }
        var sent := DispatchOne(items[i], answers(i), clock(i), updates(i));
        posted := posted + [sent];
        if !updates(i) {
          return false, posted;
        }
      }
      return true, posted;
    }

    /** One item is posted, and recorded if the update succeeds. */
    method DispatchOne(v: Item, answer: Answer, now: int, update: bool) returns (sent: bool)
      modifies this`deliveries
      ensures sent == Accepted(hooks, v.key.destination, answer)
      ensures View() == if update then AfterDelivery(old(View()), v, sent, now) else old(View())
    {
      sent := Post(v.key.destination, answer);
      if update {
        Record(v, sent, now);
      }
    }

    /** The update of the row, once it has been posted. */
    method Record(v: Item, sent: bool, now: int)
      modifies this`deliveries
      ensures View() == AfterDelivery(old(View()), v, sent, now)
    {
      var state := Pending;
      var attempt := v.attempt + 1;
      if sent {
        state := Sent;
      } else if attempt >= 10 {
        state := Dead;
      }
      var delay := RetryDelay(attempt);
      if v.key in deliveries {
        deliveries := deliveries[v.key := Delivery(attempt, now + delay, state)];
      }
    }

    method Post(destination: string, answer: Answer) returns (sent: bool)
      ensures sent <==> Accepted(hooks, destination, answer)
    {
      sent := false;
      for j := 0 to |hooks|
        invariant destination !in hooks[..j] && !sent
      {
        if hooks[j] != destination {
          continue;
        }
        if !answer.secretOk {
          break;
        }
        if !answer.requestOk {
          break;
        }
        if answer.status.Some? {
          sent := answer.status.value >= 200 && answer.status.value < 300;
        }
        break;
      }
    }
  }
}
