/** Every interleaving of the outbox operations with one dispatcher, crashes and
    reopenings with any hook list. */
module OutboxRuns {
  import opened Counting
  import opened Text
  import opened Outbox

  /** `items` is the dispatcher's unprocessed batch, `posted` what the server of
      its first item answered once it was posted and not yet recorded, and
      `hooks` the configuration of the running process; the remaining fields are
      history: the hooks each event was created for, the deliveries a server
      accepted, and the events that were unfinished at some reopening. */
  datatype State = State(
    db: Db, hooks: seq<string>, items: seq<Item>, posted: Option<bool>,
    born: map<string, set<string>>, acked: set<Key>, recovered: set<string>)

  /** Posting and recording are two steps, and the second may never come: Abandon
      is a failed update or the end of the context, Reopen follows a crash. */
  datatype Op =
    | Begin(id: string, payload: Payload, created: int, now: int)
    | Finish(id: string, status: int)
    | Retry
    | Select(now: int, batch: seq<Item>)
    | Post(answer: Answer)
    | Record(now: int)
    | Abandon
    | Reopen(hooks: seq<string>)

  function HookSet(hooks: seq<string>): set<string> {
    set h | h in hooks
  }

  function Unfinished(db: Db): set<string> {
    set e | e in db.events && !db.events[e].ready
  }

  function Next(s: State, op: Op): State {
    match op
    case Begin(id, payload, created, now) =>
      var r := AfterBegin(s.db, s.hooks, id, payload, created, now);
      if r.None? then s else s.(db := r.value, born := s.born[id := HookSet(s.hooks)])
    case Finish(id, status) => s.(db := AfterFinish(s.db, id, status))
    case Retry => s.(db := AfterRetry(s.db))
    case Select(_, batch) => s.(items := batch, posted := None)
    case Post(answer) =>
      if s.items == [] || s.posted.Some? then s
      else
        var sent := Accepted(s.hooks, s.items[0].key.destination, answer);
        s.(posted := Some(sent), acked := if sent then s.acked + {s.items[0].key} else s.acked)
    case Record(now) =>
      if s.items == [] || s.posted.None? then s
      else s.(db := AfterDelivery(s.db, s.items[0], s.posted.value, now), items := s.items[1..], posted := None)
    case Abandon => s.(items := [], posted := None)
    case Reopen(hooks) =>
      s.(db := AfterReopen(s.db), hooks := hooks, items := [], posted := None,
         recovered := s.recovered + Unfinished(s.db))
  }

  /** Identifiers are never reused, a new payload is not yet completed, and a
      batch is what the query returned. */
  ghost predicate Allowed(s: State, op: Op) {
    match op
    case Begin(id, payload, _, _) => id !in s.born && !payload.completed
    case Select(now, batch) => Selection(s.db, now, batch)
    case _ => true
  }

  function Run(s: State, ops: seq<Op>): State
    decreases |ops|
  {
    if ops == [] then s else Run(Next(s, ops[0]), ops[1..])
  }

  ghost predicate AllowedRun(s: State, ops: seq<Op>)
    decreases |ops|
  {
    ops == [] || (Allowed(s, ops[0]) && AllowedRun(Next(s, ops[0]), ops[1..]))
  }

  // ---------- the invariant ----------

  predicate RowOk(r: Delivery) {
    match r.state
    case Pending => r.attempts < MaxAttempts
    case Dead => r.attempts >= MaxAttempts
    case Sent => 1 <= r.attempts <= MaxAttempts
  }

  /** Rows belong to events, and an event has a row for exactly the hooks it was
      created for. */
  ghost predicate RowsMatch(s: State) {
    && (forall k :: k in s.db.deliveries ==> k.event in s.db.events)
    && (forall e :: e in s.db.events ==> e in s.born)
    && (forall k: Key :: k.event in s.db.events ==> (k in s.db.deliveries <==> k.destination in s.born[k.event]))
  }

  ghost predicate RowsOk(s: State) {
    forall k :: k in s.db.deliveries ==>
      && k.event in s.db.events
      && RowOk(s.db.deliveries[k])
      && (s.db.deliveries[k].state == Sent ==> k in s.acked)
      && (!s.db.events[k.event].ready ==> s.db.deliveries[k] == Delivery(0, 0, Pending))
  }

  /** An event that has left was accepted by every hook it was created for. */
  ghost predicate LeftOnlySettled(s: State) {
    && (forall k :: k in s.acked ==> k.event in s.born && k.destination in s.born[k.event])
    && forall k: Key :: k.event in s.born && k.event !in s.db.events && k.destination in s.born[k.event]
          ==> k in s.acked
  }

  ghost predicate ReadyOnlyFinished(s: State) {
    && (forall e :: e in s.db.events && s.db.events[e].payload.completed ==> s.db.events[e].ready)
    && (forall e :: e in s.db.events && s.db.events[e].ready ==> s.db.events[e].payload.completed || e in s.recovered)
  }

  /** The rows of the unprocessed batch are still as the dispatcher read them. */
  ghost predicate BatchOk(s: State) {
    && (forall i, j :: 0 <= i < j < |s.items| ==> s.items[i].key != s.items[j].key)
    && (forall i :: 0 <= i < |s.items| ==> ItemOk(s, s.items[i]))
    && (s.posted == Some(true) ==> s.items != [] && s.items[0].key in s.acked)
  }

  ghost predicate ItemOk(s: State, item: Item) {
    && item.key in s.db.deliveries
    && s.db.deliveries[item.key].state == Pending
    && s.db.deliveries[item.key].attempts == item.attempt
    && item.key.event in s.db.events && s.db.events[item.key.event].ready
    && (item.payload.completed || item.key.event in s.recovered)
  }

  ghost predicate Inv(s: State) {
    && |s.db.events| <= MaxEvents
    && RowsMatch(s)
    && RowsOk(s)
    && LeftOnlySettled(s)
    && ReadyOnlyFinished(s)
    && BatchOk(s)
  }

  const Empty := State(Db(map[], map[]), [], [], None, map[], {}, {})

  lemma EmptyOk()
    ensures Inv(Empty)
  {
  }

  // ---------- begin ----------

  lemma {:induction false} PurgeKeeps(s: State, cutoff: int)
    requires Inv(s)
    ensures Inv(s.(db := Purge(s.db, cutoff)))
  {
    var t := s.(db := Purge(s.db, cutoff));
    assert t.db.events.Keys <= s.db.events.Keys;
    Smaller(t.db.events.Keys, s.db.events.Keys);
    forall k: Key | k.event in t.born && k.event !in t.db.events && k.destination in t.born[k.event]
      ensures k in t.acked
    {
      if k.event in s.db.events { assert k in s.db.deliveries; }
    }
    forall i | 0 <= i < |t.items|
      ensures ItemOk(t, t.items[i])
    {
      assert ItemOk(s, s.items[i]);
    }
  }

  /** The state after the inserts of a committed Begin. */
  function Inserted(s: State, id: string, payload: Payload, created: int): State {
    s.(db := Db(s.db.events[id := EventRow(payload, false, created)],
        WithRows(s.db.deliveries, id, s.hooks, |s.hooks|)),
       born := s.born[id := HookSet(s.hooks)])
  }

  lemma InsertedRows(s: State, id: string, payload: Payload, created: int, k: Key)
    requires RowsMatch(s) && id !in s.born
    ensures var t := Inserted(s, id, payload, created);
            && (k in t.db.deliveries <==> k in s.db.deliveries || (k.event == id && k.destination in s.hooks))
            && (k in s.db.deliveries ==> k.event != id && t.db.deliveries[k] == s.db.deliveries[k])
            && (k.event == id && k.destination in s.hooks ==> t.db.deliveries[k] == Delivery(0, 0, Pending))
  {
    WithRowsAt(s.db.deliveries, id, s.hooks, |s.hooks|, k);
  }

  lemma {:induction false} InsertKeepsRows(s: State, id: string, payload: Payload, created: int)
    requires RowsMatch(s) && RowsOk(s) && LeftOnlySettled(s) && id !in s.born && !payload.completed
    ensures RowsMatch(Inserted(s, id, payload, created)) && RowsOk(Inserted(s, id, payload, created))
  {
    var t := Inserted(s, id, payload, created);
    forall k: Key
      ensures k in t.db.deliveries ==> k.event in t.db.events
      ensures k.event in t.db.events ==> (k in t.db.deliveries <==> k.destination in t.born[k.event])
      ensures k in t.db.deliveries ==> RowOk(t.db.deliveries[k])
      ensures k in t.db.deliveries && t.db.deliveries[k].state == Sent ==> k in t.acked
      ensures k in t.db.deliveries && !t.db.events[k.event].ready ==> t.db.deliveries[k] == Delivery(0, 0, Pending)
    {
      InsertedRows(s, id, payload, created, k);
    }
  }

  lemma {:induction false} InsertKeepsHistory(s: State, id: string, payload: Payload, created: int)
    requires RowsMatch(s) && LeftOnlySettled(s) && ReadyOnlyFinished(s) && id !in s.born && !payload.completed
    ensures LeftOnlySettled(Inserted(s, id, payload, created)) && ReadyOnlyFinished(Inserted(s, id, payload, created))
  {
  }

  lemma {:induction false} InsertKeepsBatch(s: State, id: string, payload: Payload, created: int)
    requires RowsMatch(s) && BatchOk(s) && id !in s.born
    ensures BatchOk(Inserted(s, id, payload, created))
  {
    var t := Inserted(s, id, payload, created);
    forall i | 0 <= i < |t.items|
      ensures ItemOk(t, t.items[i])
    {
      assert ItemOk(s, s.items[i]);
      InsertedRows(s, id, payload, created, s.items[i].key);
    }
  }

  lemma {:induction false} InsertKeeps(s: State, id: string, payload: Payload, created: int)
    requires Inv(s) && id !in s.born && !payload.completed && |s.db.events| < MaxEvents
    ensures Inv(Inserted(s, id, payload, created))
  {
    InsertKeepsRows(s, id, payload, created);
    InsertKeepsHistory(s, id, payload, created);
    InsertKeepsBatch(s, id, payload, created);
    OneMoreEvent(s.db.events, id, EventRow(payload, false, created));
  }

  lemma OneMoreEvent(events: map<string, EventRow>, id: string, row: EventRow)
    ensures |events[id := row]| <= |events| + 1
  {
    assert events[id := row].Keys == events.Keys + {id};
  }

  /** A committed Begin purges and then inserts. */
  lemma BeginInTwoParts(s: State, op: Op)
    requires op.Begin? && AfterBegin(s.db, s.hooks, op.id, op.payload, op.created, op.now).Some?
    ensures var p := s.(db := Purge(s.db, op.now - Retention));
            |p.db.events| < MaxEvents && Next(s, op) == Inserted(p, op.id, op.payload, op.created)
  {
  }

  lemma {:induction false} BeginKeeps(s: State, op: Op)
    requires Inv(s) && op.Begin? && Allowed(s, op)
    ensures Inv(Next(s, op))
  {
    if AfterBegin(s.db, s.hooks, op.id, op.payload, op.created, op.now).Some? {
      BeginInTwoParts(s, op);
      PurgeKeeps(s, op.now - Retention);
      InsertKeeps(s.(db := Purge(s.db, op.now - Retention)), op.id, op.payload, op.created);
    }
  }

  // ---------- the other steps ----------

  lemma {:induction false} FinishKeeps(s: State, id: string, status: int)
    requires Inv(s)
    ensures Inv(Next(s, Finish(id, status)))
  {
    var t := Next(s, Finish(id, status));
    assert t.db.events.Keys == s.db.events.Keys;
    forall i | 0 <= i < |t.items|
      ensures ItemOk(t, t.items[i])
    {
      assert ItemOk(s, s.items[i]);
    }
  }

  lemma {:induction false} RetryKeeps(s: State)
    requires Inv(s)
    ensures Inv(Next(s, Retry))
  {
    var t := Next(s, Retry);
    assert t.db.deliveries.Keys == s.db.deliveries.Keys;
    forall i | 0 <= i < |t.items|
      ensures ItemOk(t, t.items[i])
    {
      assert ItemOk(s, s.items[i]);
    }
  }

  lemma {:induction false} SelectKeeps(s: State, now: int, batch: seq<Item>)
    requires Inv(s) && Selection(s.db, now, batch)
    ensures Inv(Next(s, Select(now, batch)))
  {
    var t := Next(s, Select(now, batch));
    forall i | 0 <= i < |t.items|
      ensures ItemOk(t, t.items[i])
    {
      assert Eligible(s.db, batch[i].key, now);
    }
  }

  lemma {:induction false} PostKeeps(s: State, answer: Answer)
    requires Inv(s)
    ensures Inv(Next(s, Post(answer)))
  {
    var t := Next(s, Post(answer));
    if s.items != [] { assert ItemOk(s, s.items[0]); }
    forall i | 0 <= i < |t.items|
      ensures ItemOk(t, t.items[i])
    {
      assert ItemOk(s, s.items[i]);
    }
  }

  lemma {:induction false} RecordKeeps(s: State, now: int)
    requires Inv(s)
    ensures Inv(Next(s, Record(now)))
  {
    if s.items != [] && s.posted.Some? {
      var t := Next(s, Record(now));
      assert ItemOk(s, s.items[0]);
      assert t.db.deliveries.Keys == s.db.deliveries.Keys;
      forall i | 0 <= i < |t.items|
        ensures ItemOk(t, t.items[i])
      {
        assert t.items[i] == s.items[i + 1] && s.items[0].key != s.items[i + 1].key;
        assert ItemOk(s, s.items[i + 1]);
      }
      forall i, j | 0 <= i < j < |t.items|
        ensures t.items[i].key != t.items[j].key
      {
        assert s.items[i + 1].key != s.items[j + 1].key;
      }
    }
  }

  lemma {:induction false} ReopenKeeps(s: State, hooks: seq<string>)
    requires Inv(s)
    ensures Inv(Next(s, Reopen(hooks)))
  {
    var t := Next(s, Reopen(hooks));
    assert t.db.events.Keys == s.db.events.Keys;
  }

  lemma {:induction false} StepKeeps(s: State, op: Op)
    requires Inv(s) && Allowed(s, op)
    ensures Inv(Next(s, op))
  {
    match op
    case Begin(_, _, _, _) => BeginKeeps(s, op);
    case Finish(id, status) => FinishKeeps(s, id, status);
    case Retry => RetryKeeps(s);
    case Select(now, batch) => SelectKeeps(s, now, batch);
    case Post(answer) => PostKeeps(s, answer);
    case Record(now) => RecordKeeps(s, now);
    case Abandon =>
    case Reopen(hooks) => ReopenKeeps(s, hooks);
  }

  /** In every reachable state: at most 10000 events, no orphaned row, pending
      rows with fewer than ten attempts and dead rows with at least ten, a row
      'sent' only when a server accepted it, events gone only when every hook
      accepted them, and ready events only finished or recovered ones. */
  lemma {:induction false} RunKeeps(s: State, ops: seq<Op>)
    requires Inv(s) && AllowedRun(s, ops)
    ensures Inv(Run(s, ops))
    decreases |ops|
  {
    if ops != [] {
      StepKeeps(s, ops[0]);
      RunKeeps(Next(s, ops[0]), ops[1..]);
    }
  }

  // ---------- consequences over whole runs ----------

  lemma {:induction false} HistoryGrows(s: State, ops: seq<Op>)
    requires AllowedRun(s, ops)
    ensures s.acked <= Run(s, ops).acked
    ensures forall e :: e in s.born ==> e in Run(s, ops).born && Run(s, ops).born[e] == s.born[e]
    decreases |ops|
  {
    if ops != [] { HistoryGrows(Next(s, ops[0]), ops[1..]); }
  }

  /** An event that has left does not come back. */
  lemma {:induction false} GoneIsGone(s: State, ops: seq<Op>, event: string)
    requires Inv(s) && AllowedRun(s, ops) && event in s.born && event !in s.db.events
    ensures event !in Run(s, ops).db.events
    decreases |ops|
  {
    if ops != [] {
      StepKeeps(s, ops[0]);
      GoneIsGone(Next(s, ops[0]), ops[1..], event);
    }
  }

  lemma {:induction false} SentThroughBegin(s: State, op: Op, k: Key)
    requires Inv(s) && op.Begin? && Allowed(s, op) && k in s.db.deliveries
    ensures k in Next(s, op).db.deliveries ==> Next(s, op).db.deliveries[k] == s.db.deliveries[k]
  {
    if AfterBegin(s.db, s.hooks, op.id, op.payload, op.created, op.now).Some? {
      BeginInTwoParts(s, op);
      PurgeKeeps(s, op.now - Retention);
      InsertedRows(s.(db := Purge(s.db, op.now - Retention)), op.id, op.payload, op.created, k);
    }
  }

  lemma {:induction false} SentStep(s: State, op: Op, k: Key)
    requires Inv(s) && Allowed(s, op) && k in s.db.deliveries && s.db.deliveries[k].state == Sent
    ensures k in Next(s, op).db.deliveries ==> Next(s, op).db.deliveries[k].state == Sent
  {
    if op.Begin? {
      SentThroughBegin(s, op, k);
    } else if op.Record? && s.items != [] {
      assert ItemOk(s, s.items[0]);
    }
  }

  /** 'sent' is final: a row that is sent stays sent for as long as it exists, and
      is never in a batch again. */
  lemma {:induction false} SentIsFinal(s: State, ops: seq<Op>, k: Key)
    requires Inv(s) && AllowedRun(s, ops) && k in s.db.deliveries && s.db.deliveries[k].state == Sent
    ensures k in Run(s, ops).db.deliveries ==> Run(s, ops).db.deliveries[k].state == Sent
    ensures forall i :: 0 <= i < |Run(s, ops).items| ==> Run(s, ops).items[i].key != k
    decreases |ops|
  {
    if ops == [] {
      forall i | 0 <= i < |s.items|
        ensures s.items[i].key != k
      {
        assert ItemOk(s, s.items[i]);
      }
    } else {
      var t := Next(s, ops[0]);
      StepKeeps(s, ops[0]);
      SentStep(s, ops[0], k);
      if k in t.db.deliveries {
        SentIsFinal(t, ops[1..], k);
      } else {
        NotAgain(t, ops[1..], k);
      }
    }
  }

  lemma {:induction false} NotAgain(s: State, ops: seq<Op>, k: Key)
    requires Inv(s) && AllowedRun(s, ops) && k.event in s.born && k !in s.db.deliveries
              && k.destination in s.born[k.event]
    ensures k !in Run(s, ops).db.deliveries
    ensures forall i :: 0 <= i < |Run(s, ops).items| ==> Run(s, ops).items[i].key != k
  {
    GoneIsGone(s, ops, k.event);
    RunKeeps(s, ops);
    forall i | 0 <= i < |Run(s, ops).items|
      ensures Run(s, ops).items[i].key != k
    {
      assert ItemOk(Run(s, ops), Run(s, ops).items[i]);
    }
  }

  /** Delivery is at least once, not exactly once: when an accepted post is not
      recorded, the row is as it was and is eligible again once it is due. */
  lemma {:induction false} LostAcknowledgementRedelivers(s: State, answer: Answer, loss: Op, now: int)
    requires Inv(s) && s.items != [] && s.posted.None? && (loss.Abandon? || loss.Reopen?)
    requires Accepted(s.hooks, s.items[0].key.destination, answer)
    ensures var k, t := s.items[0].key, Next(Next(s, Post(answer)), loss);
            && k in t.acked && k in t.db.deliveries && t.db.deliveries[k] == s.db.deliveries[k]
            && t.db.deliveries[k].state == Pending
            && (Eligible(t.db, k, now) <==> t.db.deliveries[k].due <= now)
  {
    assert ItemOk(s, s.items[0]);
  }

  // ---------- the loop is a run of steps ----------

  /** The first `n` items of a batch are posted and recorded, one after the other. */
  predicate InTurn(ops: seq<Op>, answers: nat -> Answer, clock: nat -> int, n: nat) {
    |ops| == 2 * n && forall i :: 0 <= i < n ==> ops[2 * i] == Post(answers(i)) && ops[2 * i + 1] == Record(clock(i))
  }

  lemma {:induction false} RunLast(s: State, ops: seq<Op>, op: Op)
    ensures Run(s, ops + [op]) == Next(Run(s, ops), op)
    decreases |ops|
  {
    if ops == [] {
      assert [op][1..] == [] && Run(Next(s, op), []) == Next(s, op);
    } else {
      assert (ops + [op])[0] == ops[0] && (ops + [op])[1..] == ops[1..] + [op];
      RunLast(Next(s, ops[0]), ops[1..], op);
    }
  }

  lemma {:induction false} RunLastTwo(s: State, ops: seq<Op>, a: Op, b: Op)
    ensures Run(s, ops + [a] + [b]) == Next(Next(Run(s, ops), a), b)
  {
    RunLast(s, ops, a);
    RunLast(s, ops + [a], b);
  }

  lemma PostAndRecord(s: State, answer: Answer, now: int)
    requires s.items != [] && s.posted.None?
    ensures var t := Next(Next(s, Post(answer)), Record(now));
            && t.db == AfterDelivery(s.db, s.items[0], Accepted(s.hooks, s.items[0].key.destination, answer), now)
            && t.items == s.items[1..] && t.posted.None? && t.hooks == s.hooks
  {
  }

  lemma InTurnNext(before: seq<Op>, answers: nat -> Answer, clock: nat -> int, n: nat)
    requires InTurn(before, answers, clock, n)
    ensures InTurn(before + [Post(answers(n))] + [Record(clock(n))], answers, clock, n + 1)
  {
  }

  lemma {:induction false} OneMoreItem(
    s: State, before: seq<Op>, answers: nat -> Answer, clock: nat -> int, n: nat) returns (ops: seq<Op>)
    requires InTurn(before, answers, clock, n) && Run(s, before).items != [] && Run(s, before).posted.None?
    ensures InTurn(ops, answers, clock, n + 1)
    ensures var t, u := Run(s, before), Run(s, ops);
            && u.db == AfterDelivery(t.db, t.items[0], Accepted(t.hooks, t.items[0].key.destination, answers(n)),
                  clock(n))
            && u.items == t.items[1..] && u.posted.None? && u.hooks == t.hooks
  {
    ops := before + [Post(answers(n))] + [Record(clock(n))];
    InTurnNext(before, answers, clock, n);
    RunLastTwo(s, before, Post(answers(n)), Record(clock(n)));
    PostAndRecord(Run(s, before), answers(n), clock(n));
  }

  /** What the dispatch loop does to the table is what a run of those steps does. */
  lemma {:induction false} DispatchIsSteps(s: State, answers: nat -> Answer, clock: nat -> int, n: nat)
    returns (ops: seq<Op>)
    requires n <= |s.items| && s.posted.None?
    ensures InTurn(ops, answers, clock, n)
    ensures var t := Run(s, ops);
            && t.db == AfterDispatch(s.db, s.hooks, s.items, answers, clock, n)
            && t.items == s.items[n..] && t.posted.None? && t.hooks == s.hooks
  {
    if n == 0 {
      ops := [];
    } else {
      var before := DispatchIsSteps(s, answers, clock, n - 1);
      assert s.items[n - 1..][0] == s.items[n - 1] && s.items[n - 1..][1..] == s.items[n..];
      ops := OneMoreItem(s, before, answers, clock, n - 1);
    }
  }

  /** An event that is in the outbox and later is not has been accepted by every
      hook it was created for. */
  lemma {:induction false} NothingIsLost(s: State, ops: seq<Op>, event: string, hook: string)
    requires Inv(s) && AllowedRun(s, ops)
    requires event in s.db.events && hook in s.born[event] && event !in Run(s, ops).db.events
    ensures Key(event, hook) in Run(s, ops).acked
  {
    RunKeeps(s, ops);
    HistoryGrows(s, ops);
  }

  /** What is posted is a completed outcome, or belongs to an event that a
      reopening found unfinished. */
  lemma PostedIsFinishedOrRecovered(s: State)
    requires Inv(s) && s.items != []
    ensures s.items[0].payload.completed || s.items[0].key.event in s.recovered
    ensures s.items[0].key in s.db.deliveries && s.items[0].key.destination in s.born[s.items[0].key.event]
  {
    assert ItemOk(s, s.items[0]);
  }

  lemma {:induction false} SettledMeansSent(s: State, event: string)
    requires Inv(s) && event in s.db.events
    ensures Settled(s.db, event) <==> forall h :: h in s.born[event] ==> s.db.deliveries[Key(event, h)].state == Sent
  {
    forall h | h in s.born[event]
      ensures Key(event, h) in s.db.deliveries
    {
      assert Key(event, h).destination == h;
    }
    forall k | k in s.db.deliveries && k.event == event
      ensures k == Key(event, k.destination) && k.destination in s.born[event]
    {
    }
  }

  /** An event leaves in one step exactly when the step is a committed Begin, the
      event is old, and its row is 'sent' for every hook it was created for. */
  lemma {:induction false} LeavesExactlyWhenSent(s: State, op: Op, event: string)
    requires Inv(s) && Allowed(s, op) && event in s.db.events
    ensures event !in Next(s, op).db.events <==>
              && op.Begin? && AfterBegin(s.db, s.hooks, op.id, op.payload, op.created, op.now).Some?
              && s.db.events[event].created < op.now - Retention
              && forall h :: h in s.born[event] ==> s.db.deliveries[Key(event, h)].state == Sent
  {
    SettledMeansSent(s, event);
    if op.Begin? && AfterBegin(s.db, s.hooks, op.id, op.payload, op.created, op.now).Some? { BeginInTwoParts(s, op); }
  }

  /** So an unfinished event leaves exactly when it was created for no hook. */
  lemma {:induction false} UnfinishedLeavesWithoutHooks(s: State, op: Op, event: string)
    requires Inv(s) && Allowed(s, op) && event in s.db.events && !s.db.events[event].ready
    ensures event !in Next(s, op).db.events <==>
              && op.Begin? && AfterBegin(s.db, s.hooks, op.id, op.payload, op.created, op.now).Some?
              && s.db.events[event].created < op.now - Retention && s.born[event] == {}
  {
    LeavesExactlyWhenSent(s, op, event);
    forall h | h in s.born[event]
      ensures s.db.deliveries[Key(event, h)].state == Pending
    {
      assert Key(event, h) in s.db.deliveries;
    }
  }

  /** One such outbox: the next event drops an old unfinished one. */
  lemma {:induction false} UnfinishedDroppedWithoutHooks(id: string, other: string, p: Payload, created: int, now: int)
    requires id != other && created < now - Retention
    ensures var db := Db(map[id := EventRow(p, false, created)], map[]);
            AfterBegin(db, [], other, p, now, now) == Some(Db(map[other := EventRow(p, false, now)], map[]))
  {
    var db := Db(map[id := EventRow(p, false, created)], map[]);
    var kept := Purge(db, now - Retention);
    assert Settled(db, id);
    assert kept.events == map[] && kept.deliveries == map[];
  }

  /** One dispatcher is needed: a second one holding the same row turns 'sent'
      back into 'pending' or 'dead'. */
  lemma SecondDispatcherUndoesSent(db: Db, item: Item, now: int, later: int)
    requires item.key in db.deliveries
    ensures AfterDelivery(db, item, true, now).deliveries[item.key].state == Sent
    ensures AfterDelivery(AfterDelivery(db, item, true, now), item, false, later).deliveries[item.key].state != Sent
  {
  }

  // ---------- retries come due ----------

  ghost predicate DueSoon(db: Db, clock: int) {
    forall k :: k in db.deliveries && db.deliveries[k].state == Pending ==> db.deliveries[k].due <= clock + 1024
  }

  lemma Pow2Ten()
    ensures Pow2(10) == 1024
  {
    assert Pow2(4) == 16 by { assert Pow2(2) == 4; }
    assert Pow2(8) == 256 by { assert Pow2(6) == 64; }
  }

  lemma {:induction false} RecordKeepsDueSoon(s: State, clock: int, now: int)
    requires Inv(s) && DueSoon(s.db, clock) && clock <= now
    ensures DueSoon(Next(s, Record(now)).db, now)
  {
    if s.items != [] {
      assert ItemOk(s, s.items[0]);
      var attempt := s.items[0].attempt + 1;
      Pow2Ten();
      Pow2Monotone(attempt, 10);
      assert RetryDelay(attempt) <= 1024;
    }
  }

  lemma {:induction false} BeginKeepsDueSoon(
    db: Db, hooks: seq<string>, id: string, payload: Payload, created: int, now: int, clock: int)
    requires clock >= 0 && DueSoon(db, clock)
    ensures var r := AfterBegin(db, hooks, id, payload, created, now); r.Some? ==> DueSoon(r.value, clock)
  {
    var kept := Purge(db, now - Retention);
    var rows := WithRows(kept.deliveries, id, hooks, |hooks|);
    forall k | k in rows && rows[k].state == Pending
      ensures rows[k].due <= clock + 1024
    {
      WithRowsAt(kept.deliveries, id, hooks, |hooks|, k);
    }
  }

  /** The latest clock reading an update used. */
  function ClockAfter(clock: int, op: Op): int {
    if op.Record? then op.now else clock
  }

  ghost predicate Timed(clock: int, ops: seq<Op>)
    decreases |ops|
  {
    ops == [] || (clock <= ClockAfter(clock, ops[0]) && Timed(ClockAfter(clock, ops[0]), ops[1..]))
  }

  function LastClock(clock: int, ops: seq<Op>): int
    decreases |ops|
  {
    if ops == [] then clock else LastClock(ClockAfter(clock, ops[0]), ops[1..])
  }

  lemma {:induction false} StepKeepsDueSoon(s: State, op: Op, clock: int)
    requires Inv(s) && Allowed(s, op) && clock >= 0 && DueSoon(s.db, clock) && clock <= ClockAfter(clock, op)
    ensures DueSoon(Next(s, op).db, ClockAfter(clock, op))
  {
    match op
    case Begin(id, payload, created, now) => BeginKeepsDueSoon(s.db, s.hooks, id, payload, created, now, clock);
    case Record(now) => RecordKeepsDueSoon(s, clock, now);
    case _ =>
  }

  /** In every run whose updates read a clock that does not go back, a pending row
      is due at most 1024 seconds after the latest reading. */
  lemma {:induction false} PendingIsDueSoon(s: State, ops: seq<Op>, clock: int)
    requires Inv(s) && AllowedRun(s, ops) && clock >= 0 && DueSoon(s.db, clock) && Timed(clock, ops)
    ensures DueSoon(Run(s, ops).db, LastClock(clock, ops))
    decreases |ops|
  {
    if ops != [] {
      StepKeeps(s, ops[0]);
      StepKeepsDueSoon(s, ops[0], clock);
      PendingIsDueSoon(Next(s, ops[0]), ops[1..], ClockAfter(clock, ops[0]));
    }
  }

  // ---------- retries, delays and outcomes ----------

  /** A retry makes every dead row eligible again, and touches no other. */
  lemma {:induction false} RetryRevives(s: State, k: Key, now: int)
    requires Inv(s) && k in s.db.deliveries && now >= 0
    ensures k in Next(s, Retry).db.deliveries
    ensures if s.db.deliveries[k].state == Dead then Eligible(Next(s, Retry).db, k, now)
            else Next(s, Retry).db.deliveries[k] == s.db.deliveries[k]
  {
    assert k.event in s.db.events;
  }

  /** An attempt that is recorded counts. When the server accepted it the row is
      sent; otherwise it waits two to the power of the attempt in seconds, and the
      tenth failure kills it. No other row changes. */
  lemma {:induction false} RecordMeaning(s: State, now: int)
    requires Inv(s) && s.items != [] && s.posted.Some?
    ensures var k, t := s.items[0].key, Next(s, Record(now));
            && k in s.db.deliveries && k in t.db.deliveries
            && (var before, after := s.db.deliveries[k], t.db.deliveries[k];
                && after.attempts == before.attempts + 1 <= MaxAttempts
                && (s.posted.value ==> after.state == Sent)
                && (!s.posted.value ==> after.due == now + Pow2(after.attempts))
                && (!s.posted.value ==> after.state == if after.attempts == MaxAttempts then Dead else Pending))
            && t.db.events == s.db.events && t.db.deliveries.Keys == s.db.deliveries.Keys
            && forall other :: other in s.db.deliveries && other != k ==>
                 t.db.deliveries[other] == s.db.deliveries[other]
  {
    assert ItemOk(s, s.items[0]);
  }

  /** Each further failure doubles the wait. */
  lemma WaitDoubles(attempts: nat)
    requires attempts < MaxAttempts
    ensures RetryDelay(attempts + 1) == 2 * RetryDelay(attempts)
  {
  }

  ghost predicate Untouched(ops: seq<Op>, event: string) {
    forall op :: op in ops && op.Finish? ==> op.id != event
  }

  lemma {:induction false} PayloadStep(s: State, op: Op, event: string)
    requires Inv(s) && Allowed(s, op) && event in s.db.events && (op.Finish? ==> op.id != event)
    ensures event in Next(s, op).db.events ==> Next(s, op).db.events[event].payload == s.db.events[event].payload
  {
    if op.Begin? && AfterBegin(s.db, s.hooks, op.id, op.payload, op.created, op.now).Some? { BeginInTwoParts(s, op); }
  }

  lemma {:induction false} PayloadStays(s: State, ops: seq<Op>, event: string)
    requires Inv(s) && AllowedRun(s, ops) && event in s.db.events && Untouched(ops, event)
    ensures event in Run(s, ops).db.events ==> Run(s, ops).db.events[event].payload == s.db.events[event].payload
    decreases |ops|
  {
    if ops != [] {
      var t := Next(s, ops[0]);
      assert ops[0] in ops;
      StepKeeps(s, ops[0]);
      PayloadStep(s, ops[0], event);
      if event in t.db.events {
        PayloadStays(t, ops[1..], event);
      } else {
        GoneIsGone(t, ops[1..], event);
      }
    }
  }

  /** What is posted for a finished event is its request and the status it was
      finished with, in every later batch. */
  lemma {:induction false} FinishedStatusIsPosted(
    s: State, event: string, status: int, ops: seq<Op>, now: int, batch: seq<Item>, i: nat)
    requires Inv(s) && event in s.db.events && AllowedRun(Next(s, Finish(event, status)), ops) && Untouched(ops, event)
    requires Selection(Run(Next(s, Finish(event, status)), ops).db, now, batch)
    requires i < |batch| && batch[i].key.event == event
    ensures var p, q := s.db.events[event].payload, batch[i].payload;
            q.completed && q.status == status && q.principal == p.principal && q.verb == p.verb && q.path == p.path
  {
    var t := Next(s, Finish(event, status));
    StepKeeps(s, Finish(event, status));
    PayloadStays(t, ops, event);
    assert Eligible(Run(t, ops).db, batch[i].key, now);
  }
}
