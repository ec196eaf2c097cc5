/** What every run of the destination throttle keeps, for a clock that never
    goes back. */
module ThrottleRuns {
  import opened Counting
  import opened Text
  import opened Throttle

  datatype Op =
    | Acquire(name: string, now: nat)
    | Release(token: nat, now: nat)
    | Observe(name: string, success: bool, temporary: bool, now: nat, later: nat)

  function Next(s: State, op: Op): (r: State)
    requires Valid(s.config)
    ensures r.config == s.config
  {
    match op
    case Acquire(name, now) => AfterAcquire(s, name, now).0
    case Release(token, now) => AfterRelease(s, token, now)
    case Observe(name, success, temporary, now, later) => AfterObserve(s, name, success, temporary, now, later)
  }

  predicate Granted(s: State, op: Op) {
    op.Acquire? && AfterAcquire(s, op.name, op.now).1
  }

  /** The latest clock reading of an operation. */
  function Reading(op: Op): nat {
    if op.Observe? then op.later else op.now
  }

  /** Readings do not go back. */
  predicate Timed(clock: nat, op: Op) {
    clock <= op.now && (op.Observe? ==> op.now <= op.later)
  }

  ghost predicate TimedRun(clock: nat, ops: seq<Op>)
    decreases |ops|
  {
    ops == [] || (Timed(clock, ops[0]) && TimedRun(Reading(ops[0]), ops[1..]))
  }

  /** The two readings of an observation are at most the longest cooldown and one
      nanosecond apart. */
  predicate Close(c: Config, op: Op) {
    op.Observe? ==> op.later <= op.now + c.max as int + 1
  }

  ghost predicate CloseRun(c: Config, ops: seq<Op>) {
    forall op :: op in ops ==> Close(c, op)
  }

  function Run(s: State, ops: seq<Op>): (r: State)
    requires Valid(s.config)
    ensures r.config == s.config
    decreases |ops|
  {
    if ops == [] then s else Run(Next(s, ops[0]), ops[1..])
  }

  /** Unreleased tokens of a destination among the first `n`. */
  function Outstanding(tokens: seq<Token>, domain: string, n: nat): nat
    requires n <= |tokens|
  {
    if n == 0 then 0
    else Outstanding(tokens, domain, n - 1) + (if tokens[n - 1].domain == domain && !tokens[n - 1].done then 1 else 0)
  }

  ghost predicate EntryOk(s: State, clock: nat, d: string, e: Entry)
    requires Valid(s.config)
  {
    && e.serial < s.next
    && 1 <= e.limit <= s.config.concurrency
    && 0 <= e.active <= s.config.concurrency
    && e.active == Outstanding(s.tokens, d, |s.tokens|)
    && e.last <= clock
    && e.until <= clock + Delay(s.config, e.failures)
  }

  ghost predicate Inv(s: State, clock: nat) {
    && Valid(s.config)
    && |s.table| <= s.config.maxDestinations
    && (forall d :: d in s.table ==> EntryOk(s, clock, d, s.table[d]))
    && (forall i :: 0 <= i < |s.tokens| && !s.tokens[i].done ==>
          s.tokens[i].domain in s.table && s.table[s.tokens[i].domain].serial == s.tokens[i].serial)
  }

  // ---------- counting tokens ----------

  lemma {:induction false} OutstandingPrefix(a: seq<Token>, b: seq<Token>, domain: string, n: nat)
    requires n <= |a| && n <= |b| && a[..n] == b[..n]
    ensures Outstanding(a, domain, n) == Outstanding(b, domain, n)
  {
    if n > 0 {
      assert a[n - 1] == a[..n][n - 1] && b[n - 1] == b[..n][n - 1];
      assert a[..n - 1] == a[..n][..n - 1] && b[..n - 1] == b[..n][..n - 1];
      OutstandingPrefix(a, b, domain, n - 1);
    }
  }

  lemma {:induction false} OutstandingAppend(tokens: seq<Token>, t: Token, domain: string)
    ensures Outstanding(tokens + [t], domain, |tokens| + 1) ==
              Outstanding(tokens, domain, |tokens|) + (if t.domain == domain && !t.done then 1 else 0)
  {
    OutstandingPrefix(tokens, tokens + [t], domain, |tokens|);
  }

  lemma {:induction false} OutstandingDone(tokens: seq<Token>, i: nat, domain: string, n: nat)
    requires i < |tokens| && !tokens[i].done && n <= |tokens|
    ensures Outstanding(tokens[i := tokens[i].(done := true)], domain, n) ==
              Outstanding(tokens, domain, n) - (if i < n && tokens[i].domain == domain then 1 else 0)
  {
    if n > 0 { OutstandingDone(tokens, i, domain, n - 1); }
  }

  lemma {:induction false} NoneOutstanding(tokens: seq<Token>, domain: string, n: nat)
    requires n <= |tokens|
    requires forall i :: 0 <= i < n && !tokens[i].done ==> tokens[i].domain != domain
    ensures Outstanding(tokens, domain, n) == 0
  {
    if n > 0 { NoneOutstanding(tokens, domain, n - 1); }
  }

  lemma {:induction false} SomeOutstanding(tokens: seq<Token>, domain: string, i: nat, n: nat)
    requires i < n <= |tokens| && tokens[i].domain == domain && !tokens[i].done
    ensures Outstanding(tokens, domain, n) > 0
  {
    if i < n - 1 { SomeOutstanding(tokens, domain, i, n - 1); }
  }

  // ---------- every step keeps the invariant ----------

  lemma {:induction false} Later(s: State, clock: nat, now: nat)
    requires Inv(s, clock) && clock <= now
    ensures Inv(s, now)
  {
    forall d | d in s.table
      ensures EntryOk(s, now, d, s.table[d])
    {
      assert EntryOk(s, clock, d, s.table[d]);
    }
  }

  /** Eviction takes no entry that an unreleased token belongs to. */
  lemma {:induction false} EvictedHasNoToken(s: State, now: nat, d: string)
    requires Inv(s, now) && d in s.table && d !in Evict(s.table, now, s.config.max as int)
    ensures forall i :: 0 <= i < |s.tokens| && !s.tokens[i].done ==> s.tokens[i].domain != d
  {
    assert EntryOk(s, now, d, s.table[d]);
    forall i | 0 <= i < |s.tokens| && !s.tokens[i].done
      ensures s.tokens[i].domain != d
    {
      if s.tokens[i].domain == d { SomeOutstanding(s.tokens, d, i, |s.tokens|); }
    }
  }

  lemma {:induction false} RoomKeeps(s: State, now: nat, d: string)
    requires Inv(s, now)
    ensures Inv(s.(table := Room(s, d, now)), now)
  {
    var room := s.(table := Room(s, d, now));
    assert room.table.Keys <= s.table.Keys;
    Smaller(room.table.Keys, s.table.Keys);
    forall k | k in room.table
      ensures EntryOk(room, now, k, room.table[k])
    {
      assert EntryOk(s, now, k, s.table[k]);
    }
    forall i | 0 <= i < |s.tokens| && !s.tokens[i].done
      ensures s.tokens[i].domain in room.table
    {
      if s.tokens[i].domain !in room.table { EvictedHasNoToken(s, now, s.tokens[i].domain); }
    }
  }

  /** One entry written, with the tokens that belong to it. */
  lemma {:induction false} EntryWritten(s: State, t: State, now: nat, d: string, e: Entry)
    requires Inv(s, now) && t.config == s.config && t.table == s.table[d := e] && s.next <= t.next
    requires |t.table| <= s.config.maxDestinations && EntryOk(t, now, d, e)
    requires d in s.table ==> s.table[d].serial == e.serial
    requires t.tokens == s.tokens || t.tokens == s.tokens + [Token(d, e.serial, false)]
    ensures Inv(t, now)
  {
    forall k | k in t.table
      ensures EntryOk(t, now, k, t.table[k])
    {
      if k != d {
        assert EntryOk(s, now, k, s.table[k]);
        if t.tokens != s.tokens { OutstandingAppend(s.tokens, Token(d, e.serial, false), k); }
      }
    }
  }

  lemma {:induction false} AcquiredEntryOk(s: State, t: State, now: nat, d: string, granted: bool)
    requires Inv(s, now) && t.config == s.config && EntryFor(s, d).serial < t.next
    requires t.tokens == if granted then s.tokens + [Token(d, EntryFor(s, d).serial, false)] else s.tokens
    requires granted ==> EntryFor(s, d).active < EntryFor(s, d).limit
    ensures EntryOk(t, now, d, EntryFor(s, d).(last := now, active := EntryFor(s, d).active + if granted then 1 else 0))
  {
    OutstandingAppend(s.tokens, Token(d, EntryFor(s, d).serial, false), d);
    if d in s.table {
      assert EntryOk(s, now, d, s.table[d]);
    } else {
      NoneOutstanding(s.tokens, d, |s.tokens|);
    }
  }

  lemma {:induction false} AcquireKeeps(s: State, name: string, now: nat)
    requires Inv(s, now)
    ensures Inv(AfterAcquire(s, name, now).0, now)
  {
    var d := Lower(name);
    RoomKeeps(s, now, d);
    var room := s.(table := Room(s, d, now));
    var (after, granted) := AfterAcquire(s, name, now);
    if d in s.table || |room.table| < s.config.maxDestinations {
      AcquiredEntryOk(room, after, now, d, granted);
      assert after.table.Keys == room.table.Keys + {d};
      EntryWritten(room, after, now, d, after.table[d]);
    }
  }

  lemma {:induction false} ReleaseKeeps(s: State, token: nat, now: nat)
    requires Inv(s, now)
    ensures Inv(AfterRelease(s, token, now), now)
  {
    if token >= |s.tokens| || s.tokens[token].done { return; }
    var after := AfterRelease(s, token, now);
    var d := s.tokens[token].domain;
    assert after.table.Keys == s.table.Keys;
    SomeOutstanding(s.tokens, d, token, |s.tokens|);
    forall k | k in after.table
      ensures EntryOk(after, now, k, after.table[k])
    {
      OutstandingDone(s.tokens, token, k, |s.tokens|);
      assert EntryOk(s, now, k, s.table[k]);
    }
  }

  lemma {:induction false} ObserveKeeps(s: State, op: Op)
    requires op.Observe? && Inv(s, op.now) && Timed(op.now, op)
    ensures Inv(Next(s, op), op.later)
  {
    Later(s, op.now, op.later);
    var d := Lower(op.name);
    if d !in s.table { return; }
    var after := Next(s, op);
    assert after.table.Keys == s.table.Keys;
    forall k | k in after.table
      ensures EntryOk(after, op.later, k, after.table[k])
    {
      assert EntryOk(s, op.later, k, s.table[k]);
      if k == d {
        assert EntryOk(s, op.now, d, s.table[d]);
        DelayMonotone(s.config, s.table[d].failures, s.table[d].failures + 1);
      }
    }
  }

  /** Active slots, limits, table size, tokens and cooldowns stay as `Inv` says. */
  lemma {:induction false} StepKeeps(s: State, clock: nat, op: Op)
    requires Inv(s, clock) && Timed(clock, op)
    ensures Inv(Next(s, op), Reading(op))
  {
    Later(s, clock, op.now);
    match op
    case Acquire(name, now) => AcquireKeeps(s, name, now);
    case Release(token, now) => ReleaseKeeps(s, token, now);
    case Observe(_, _, _, _, _) => ObserveKeeps(s, op);
  }

  lemma {:induction false} RunKeeps(s: State, clock: nat, ops: seq<Op>)
    requires Inv(s, clock) && TimedRun(clock, ops)
    ensures Inv(Run(s, ops), if ops == [] then clock else Reading(ops[|ops| - 1]))
    decreases |ops|
  {
    if ops != [] {
      StepKeeps(s, clock, ops[0]);
      RunKeeps(Next(s, ops[0]), Reading(ops[0]), ops[1..]);
      assert |ops| > 1 ==> ops[1..][|ops| - 2] == ops[|ops| - 1];
    }
  }

  // ---------- cooldowns over whole runs ----------

  /** No cooldown reaches further past the last use than eviction waits. */
  ghost predicate Bounded(s: State) {
    forall d :: d in s.table ==> s.table[d].until <= s.table[d].last + 2 * s.config.max as int + 1
  }

  lemma {:induction false} BoundedStep(s: State, clock: nat, op: Op)
    requires Inv(s, clock) && Bounded(s) && Timed(clock, op) && Close(s.config, op)
    ensures Bounded(Next(s, op))
  {
    forall d | d in Next(s, op).table
      ensures Next(s, op).table[d].until <= Next(s, op).table[d].last + 2 * s.config.max as int + 1
    {
      if d in s.table { assert EntryOk(s, clock, d, s.table[d]); }
    }
  }

  /** Eviction forgets no cooldown that is still running, and no token. */
  lemma {:induction false} EvictionIsSafe(s: State, now: nat, d: string)
    requires Inv(s, now) && Bounded(s) && d in s.table && d !in Evict(s.table, now, s.config.max as int)
    ensures s.table[d].until <= now
    ensures forall i :: 0 <= i < |s.tokens| && !s.tokens[i].done ==> s.tokens[i].domain != d
  {
    EvictedHasNoToken(s, now, d);
  }

  /** A cooldown that ends at `u` is over, or still on record. */
  ghost predicate Owed(s: State, clock: nat, d: string, u: nat) {
    u <= clock || (d in s.table && s.table[d].until >= u)
  }

  /** One step neither shortens a running cooldown nor forgets it, and grants no
      slot before it ends. */
  lemma {:induction false} StepOwes(s: State, clock: nat, op: Op, d: string, u: nat)
    requires Inv(s, clock) && Bounded(s) && Timed(clock, op) && Owed(s, clock, d, u)
    ensures Owed(Next(s, op), Reading(op), d, u)
    ensures Granted(s, op) && Lower(op.name) == d ==> u <= op.now
  {
    Later(s, clock, op.now);
    if u > op.now {
      assert EntryOk(s, op.now, d, s.table[d]);
      match op {
        case Acquire(name, now) =>
          var room := Room(s, Lower(name), now);
          if d !in room { EvictionIsSafe(s, now, d); }
        case Release(token, now) =>
        case Observe(name, success, temporary, now, later) =>
          DelayMonotone(s.config, s.table[d].failures, s.table[d].failures + 1);
      }
    }
  }

  /** In every run: once a destination has had a cooldown ending at `u`, no slot
      for it is granted before `u`, through any number of evictions. */
  lemma {:induction false} NoGrantDuringCooldown(s: State, clock: nat, ops: seq<Op>, d: string, k: nat)
    requires Inv(s, clock) && Bounded(s) && TimedRun(clock, ops) && CloseRun(s.config, ops) && k < |ops|
    requires d in s.table
    requires Granted(Run(s, ops[..k]), ops[k]) && Lower(ops[k].name) == d
    ensures s.table[d].until <= ops[k].now
  {
    OwedThroughRun(s, clock, ops, d, s.table[d].until, k);
  }

  lemma {:induction false} OwedThroughRun(s: State, clock: nat, ops: seq<Op>, d: string, u: nat, k: nat)
    requires Inv(s, clock) && Bounded(s) && TimedRun(clock, ops) && CloseRun(s.config, ops)
    requires k < |ops| && Owed(s, clock, d, u)
    requires Granted(Run(s, ops[..k]), ops[k]) && Lower(ops[k].name) == d
    ensures u <= ops[k].now
    decreases k
  {
    StepOwes(s, clock, ops[0], d, u);
    if k > 0 {
      StepKeeps(s, clock, ops[0]);
      BoundedStep(s, clock, ops[0]);
      assert ops[..k][0] == ops[0] && ops[..k][1..] == ops[1..][..k - 1];
      OwedThroughRun(Next(s, ops[0]), Reading(ops[0]), ops[1..], d, u, k - 1);
    }
  }

  lemma {:induction false} CooldownStep(s: State, clock: nat, op: Op, d: string)
    requires Inv(s, clock) && Timed(clock, op)
    requires d in s.table && d in Next(s, op).table && Next(s, op).table[d].serial == s.table[d].serial
    ensures Next(s, op).table[d].until >= s.table[d].until
  {
    Later(s, clock, op.now);
    assert EntryOk(s, op.now, d, s.table[d]);
    if op.Observe? {
      DelayMonotone(s.config, s.table[d].failures, s.table[d].failures + 1);
    }
  }

  /** The entry of a destination is not the one with this serial number. */
  predicate Replaced(s: State, d: string, serial: nat) {
    serial < s.next && (d in s.table ==> s.table[d].serial != serial)
  }

  lemma ReplacedStep(s: State, op: Op, d: string, serial: nat)
    requires Valid(s.config) && Replaced(s, d, serial)
    ensures Replaced(Next(s, op), d, serial)
  {
  }

  lemma {:induction false} ReplacedForGood(s: State, ops: seq<Op>, d: string, serial: nat)
    requires Valid(s.config) && Replaced(s, d, serial)
    ensures Replaced(Run(s, ops), d, serial)
    decreases |ops|
  {
    if ops != [] {
      ReplacedStep(s, ops[0], d, serial);
      ReplacedForGood(Next(s, ops[0]), ops[1..], d, serial);
    }
  }

  lemma SerialsGrow(s: State, op: Op)
    requires Valid(s.config)
    ensures s.next <= Next(s, op).next
  {
  }

  /** While one entry lives, in any run, its cooldown end never moves earlier. */
  lemma {:induction false} CooldownNeverShrinks(s: State, clock: nat, ops: seq<Op>, d: string)
    requires Inv(s, clock) && TimedRun(clock, ops)
    requires d in s.table && d in Run(s, ops).table && Run(s, ops).table[d].serial == s.table[d].serial
    ensures Run(s, ops).table[d].until >= s.table[d].until
    decreases |ops|
  {
    if ops != [] {
      var t := Next(s, ops[0]);
      assert EntryOk(s, clock, d, s.table[d]);
      SerialsGrow(s, ops[0]);
      StepKeeps(s, clock, ops[0]);
      if d in t.table && t.table[d].serial == s.table[d].serial {
        CooldownStep(s, clock, ops[0], d);
        CooldownNeverShrinks(t, Reading(ops[0]), ops[1..], d);
      } else {
        ReplacedForGood(t, ops[1..], d, s.table[d].serial);
      }
    }
  }

  // ---------- multiplicative decrease, additive recovery ----------

  lemma MultipleIsFar(p: nat, d: int)
    ensures d > 0 ==> p * d >= p
    ensures d < 0 ==> p * d <= -(p as int)
  {
  }

  lemma DivisionIsUnique(x: nat, p: nat, q: nat, r: nat)
    requires p > 0 && x == p * q + r && r < p
    ensures x / p == q
  {
    assert p * (x / p - q) == r - x % p;
    MultipleIsFar(p, x / p - q);
  }

  lemma {:induction false} HalfThenDivide(x: nat, p: nat)
    requires p > 0
    ensures x / 2 / p == x / (2 * p)
  {
    var q, r := x / (2 * p), x % (2 * p);
    var m := p * q;
    assert x == 2 * m + r;
    assert x / 2 == m + r / 2 && r / 2 < p;
    DivisionIsUnique(x / 2, p, q, r / 2);
  }

  /** A limit after `n` halvings, never below one. */
  function Halved(limit: nat, n: nat): nat {
    var h := limit / Pow2(n);
    if h < 1 then 1 else h
  }

  lemma {:induction false} HalvedOnceMore(limit: nat, n: nat)
    requires limit >= 1 && n > 0
    ensures Halved(Halved(limit, 1), n - 1) == Halved(limit, n)
  {
    assert Pow2(1) == 2 * Pow2(0) == 2 && Pow2(n) == 2 * Pow2(n - 1);
    HalfThenDivide(limit, Pow2(n - 1));
    if limit == 1 {
      DivisionIsUnique(1, Pow2(n), 0, 1);
      if n > 1 { DivisionIsUnique(1, Pow2(n - 1), 0, 1); }
    }
  }

  predicate Failure(op: Op, d: string) {
    op.Observe? && op.temporary && Lower(op.name) == d
  }

  /** Successive temporary failures divide the limit by two each time and leave a
      cooldown that doubles up to the maximum. */
  lemma {:induction false} FailuresBackOff(s: State, d: string, ops: seq<Op>)
    requires Valid(s.config) && d in s.table && s.table[d].limit >= 1
    requires ops != [] && forall op :: op in ops ==> Failure(op, d)
    ensures var e, last, n := s.table[d], ops[|ops| - 1], |ops|;
            Run(s, ops) == s.(table := s.table[d := e.(failures := e.failures + n, limit := Halved(e.limit, n),
              until := Reading(last) + Delay(s.config, e.failures + n), last := last.now)])
    decreases |ops|
  {
    var e, t := s.table[d], Next(s, ops[0]);
    assert Failure(ops[0], d);
    assert Pow2(1) == 2 * Pow2(0) == 2;
    assert t.table[d].limit == Halved(e.limit, 1);
    if |ops| > 1 {
      FailuresBackOff(t, d, ops[1..]);
      HalvedOnceMore(e.limit, |ops|);
    } else {
      assert Run(t, ops[1..]) == t;
    }
  }

  predicate LateSuccess(op: Op, d: string, until: nat) {
    op.Observe? && op.success && !op.temporary && Lower(op.name) == d && op.later >= until
  }

  /** Successive successes after the cooldown raise the limit by one each time, up
      to the configured concurrency, and forget the failures. */
  lemma {:induction false} SuccessesRecover(s: State, d: string, ops: seq<Op>)
    requires Valid(s.config) && d in s.table && s.table[d].limit <= s.config.concurrency
    requires ops != [] && forall op :: op in ops ==> LateSuccess(op, d, s.table[d].until)
    ensures var e, n := s.table[d], |ops|;
            Run(s, ops) == s.(table := s.table[d := e.(failures := 0, limit := Min(e.limit + n, s.config.concurrency),
              last := ops[n - 1].now)])
    decreases |ops|
  {
    var t := Next(s, ops[0]);
    assert LateSuccess(ops[0], d, s.table[d].until);
    if |ops| > 1 {
      SuccessesRecover(t, d, ops[1..]);
    } else {
      assert Run(t, ops[1..]) == t;
    }
  }

  /** A success during a cooldown and a permanent failure change nothing but the
      time of the last use. */
  lemma QuietObservation(s: State, op: Op)
    requires Valid(s.config) && op.Observe? && !op.temporary && Lower(op.name) in s.table
    requires op.success ==> op.later < s.table[Lower(op.name)].until
    ensures var d := Lower(op.name);
            Next(s, op) == s.(table := s.table[d := s.table[d].(last := op.now)])
  {
  }

  /** What is observed of one destination, or released, leaves the others alone. */
  lemma OthersUntouched(s: State, op: Op, d: string)
    requires Valid(s.config) && !op.Acquire? && d in s.table
    requires op.Observe? ==> Lower(op.name) != d
    requires op.Release? && op.token < |s.tokens| ==> s.tokens[op.token].domain != d
    ensures d in Next(s, op).table && Next(s, op).table[d] == s.table[d]
  {
  }

  // ---------- when a slot is granted ----------

  /** The destinations that eviction would leave. */
  function InUse(s: State, now: nat): set<string> {
    set k | k in s.table && (s.table[k].active != 0 || now - s.table[k].last <= 2 * s.config.max as int)
  }

  /** There is an entry for the destination, or room for one. */
  predicate HasRoom(s: State, d: string, now: nat) {
    d in s.table || |s.table| < s.config.maxDestinations || |InUse(s, now)| < s.config.maxDestinations
  }

  /** A slot is granted exactly when there is room for the destination and, if it is
      known, a slot is free and its cooldown is over. */
  lemma {:induction false} GrantedExactly(s: State, name: string, now: nat)
    requires Valid(s.config)
    ensures var d := Lower(name);
            AfterAcquire(s, name, now).1 <==>
              HasRoom(s, d, now)
              && (d in s.table ==> s.table[d].active < s.table[d].limit && s.table[d].until <= now)
  {
    var d, kept := Lower(name), Evict(s.table, now, s.config.max as int);
    assert kept.Keys == InUse(s, now);
    assert |kept| == |kept.Keys|;
  }

  /** What a request leaves: a granted one takes a slot and a token, a refused one
      at most notes the time; others are as they were, or evicted to make room. */
  lemma {:induction false} AcquireMeaning(s: State, name: string, now: nat)
    requires Valid(s.config)
    ensures var d, (t, granted) := Lower(name), AfterAcquire(s, name, now);
            && (d in t.table <==> HasRoom(s, d, now))
            && (d in t.table ==> t.table[d].last == now)
            && (granted ==> t.tokens == s.tokens + [Token(d, t.table[d].serial, false)])
            && (!granted ==> t.tokens == s.tokens)
            && (d in s.table ==> t.table[d] == s.table[d].(last := now, active := s.table[d].active + Taken(granted)))
            && (granted && d !in s.table ==> t.table[d] == Entry(s.next, 1, s.config.concurrency, 0, 0, now))
            && (forall k :: k in t.table && k != d ==> k in s.table && t.table[k] == s.table[k])
            && (forall k :: k in s.table && k != d ==>
                  (k !in t.table <==>
                     d !in s.table && |s.table| >= s.config.maxDestinations && k !in InUse(s, now)))
  {
    var kept := Evict(s.table, now, s.config.max as int);
    assert kept.Keys == InUse(s, now);
    assert |kept| == |kept.Keys|;
  }

  function Taken(granted: bool): nat {
    if granted then 1 else 0
  }

  lemma ReleaseOnce(s: State, token: nat, now: nat, again: nat)
    ensures AfterRelease(AfterRelease(s, token, now), token, again) == AfterRelease(s, token, now)
  {
  }

  // ---------- the bound on the gap between two readings is exact ----------

  /** A full table in which the next failure of an idle destination opens the
      longest cooldown: if its two clock readings are further apart than the bound,
      a later Acquire evicts the entry while the cooldown is running. */
  lemma {:induction false} GapForgets(s: State, d: string, other: string, now: nat, later: nat) returns (at: nat)
    requires Valid(s.config) && d in s.table && s.table[d].active == 0 && Lower(d) == d && Lower(other) == other
    requires other !in s.table && |s.table| >= s.config.maxDestinations
    requires Delay(s.config, s.table[d].failures + 1) == s.config.max as int && later > now + s.config.max as int + 1
    ensures var t := Next(s, Observe(d, false, true, now, later));
            && at >= later && d in t.table && t.table[d].until > at
            && d !in Next(t, Acquire(other, at)).table
  {
    var t := Next(s, Observe(d, false, true, now, later));
    var stale := now + 2 * s.config.max as int + 1;
    at := if later > stale then later else stale;
    assert t.table.Keys == s.table.Keys;
    assert Stale(t.table[d], at, s.config.max as int);
  }

  /** `n` times the letter x. */
  function Xs(n: nat): string {
    seq(n, _ => 'x')
  }

  lemma LowerXs(n: nat)
    ensures Lower(Xs(n)) == Xs(n)
  {
  }

  lemma FillStep(s: State, m: nat)
    requires Valid(s.config) && |s.table| == m < s.config.maxDestinations && Xs(m) !in s.table
    ensures var t := Next(s, Acquire(Xs(m), 0));
            t.table.Keys == s.table.Keys + {Xs(m)} && forall e :: e in s.table ==> t.table[e] == s.table[e]
  {
    LowerXs(m);
  }

  /** Other destinations fill the table. */
  lemma {:induction false} Fill(s: State, m: nat) returns (ops: seq<Op>)
    requires Valid(s.config) && |s.table| == m <= s.config.maxDestinations
    requires (forall k :: k >= m ==> Xs(k) !in s.table) && "b" !in s.table
    ensures TimedRun(0, ops) && CloseRun(s.config, ops)
    ensures var t := Run(s, ops);
            && |t.table| == s.config.maxDestinations && "b" !in t.table
            && forall e :: e in s.table ==> e in t.table && t.table[e] == s.table[e]
    decreases s.config.maxDestinations - m
  {
    ops := [];
    if m < s.config.maxDestinations {
      var op := Acquire(Xs(m), 0);
      var t := Next(s, op);
      FillStep(s, m);
      assert Xs(m) != "b" by { if m == 1 { assert Xs(m)[0] == 'x'; } else { assert |Xs(m)| != 1; } }
      assert |t.table| == |t.table.Keys| == m + 1;
      forall k | k >= m + 1
        ensures Xs(k) !in t.table
      {
        assert |Xs(k)| != |Xs(m)|;
      }
      var rest := Fill(t, m + 1);
      ops := [op] + rest;
      assert ops[1..] == rest;
    }
  }

  lemma {:induction false} Pow2Exceeds(n: nat)
    ensures Pow2(n) > n
  {
    if n > 0 { Pow2Exceeds(n - 1); }
  }

  /** Enough failures reach the longest cooldown. */
  lemma LongestDelay(c: Config)
    requires Valid(c)
    ensures Delay(c, c.max as int + 1) == c.max as int
  {
    Pow2Exceeds(c.max as int);
    MulMonotone(Pow2(c.max as int), 1, c.initial as int);
  }

  function Failing(n: nat): seq<Op> {
    seq(n, _ => Observe("a", false, true, 0, 0))
  }

  lemma {:induction false} FailingIsTimed(c: Config, n: nat)
    requires Valid(c)
    ensures TimedRun(0, Failing(n)) && CloseRun(c, Failing(n))
  {
    if n > 0 {
      FailingIsTimed(c, n - 1);
      assert Failing(n)[1..] == Failing(n - 1);
    }
  }

  lemma {:induction false} RunAppend(s: State, clock: nat, a: seq<Op>, b: seq<Op>)
    requires Valid(s.config) && TimedRun(clock, a) && (forall op :: op in a ==> Reading(op) == clock)
    requires TimedRun(clock, b)
    ensures Run(s, a + b) == Run(Run(s, a), b) && TimedRun(clock, a + b)
    decreases |a|
  {
    if a == [] {
      assert a + b == b;
    } else {
      assert (a + b)[0] == a[0] && (a + b)[1..] == a[1..] + b && a[0] in a;
      RunAppend(Next(s, a[0]), clock, a[1..], b);
    }
  }

  const Idle := [Acquire("a", 0), Release(0, 0)]

  lemma {:induction false} OneIdle(c: Config)
    requires Valid(c)
    ensures Run(State(c, map[], [], 0), Idle) ==
              State(c, map["a" := Entry(0, 0, c.concurrency, 0, 0, 0)], [Token("a", 0, true)], 1)
    ensures TimedRun(0, Idle) && CloseRun(c, Idle)
  {
    var s := State(c, map[], [], 0);
    assert Lower("a") == "a";
    var e := Entry(0, 0, c.concurrency, 0, 0, 0);
    var t := State(c, map["a" := e.(active := 1)], [Token("a", 0, false)], 1);
    assert Next(s, Acquire("a", 0)) == t;
    var u := State(c, map["a" := e], [Token("a", 0, true)], 1);
    assert Next(t, Release(0, 0)) == u;
    assert Idle[1..] == [Release(0, 0)] && Idle[1..][1..] == [];
    assert Run(s, Idle) == Run(t, Idle[1..]) == Run(u, []);
  }

  lemma {:induction false} AllFailed(s: State, c: Config, n: nat)
    requires Valid(c) && s == State(c, map["a" := Entry(0, 0, c.concurrency, 0, 0, 0)], [Token("a", 0, true)], 1)
              && n > 0
    ensures var t := Run(s, Failing(n));
            && t.config == c && t.table.Keys == {"a"} && t.table["a"].active == 0 && t.table["a"].failures == n
  {
    forall op | op in Failing(n)
      ensures Failure(op, "a")
    {
      assert Lower("a") == "a";
    }
    FailuresBackOff(s, "a", Failing(n));
  }

  /** For every configuration and every gap above the bound there is a run within
      the bound after which one observation with that gap lets the cooldown it
      opens be forgotten. */
  lemma {:induction false} LargerGapForgets(c: Config, gap: nat) returns (ops: seq<Op>, at: nat)
    requires Valid(c) && gap > c.max as int + 1
    ensures TimedRun(0, ops) && CloseRun(c, ops)
    ensures var s := Next(Run(State(c, map[], [], 0), ops), Observe("a", false, true, 0, gap));
            at >= gap && "a" in s.table && s.table["a"].until > at && "a" !in Next(s, Acquire("b", at)).table
  {
    var start, n := State(c, map[], [], 0), c.max as int;
    OneIdle(c);
    var idle := Run(start, Idle);
    FailingIsTimed(c, n);
    AllFailed(idle, c, n);
    RunAppend(start, 0, Idle, Failing(n));
    var failed := Run(idle, Failing(n));
    assert |failed.table| == |failed.table.Keys| == 1;
    forall k: nat | k >= 1
      ensures Xs(k) !in failed.table
    {
      assert Xs(k)[0] == 'x' && "a"[0] == 'a';
    }
    var fill := Fill(failed, 1);
    RunAppend(start, 0, Idle + Failing(n), fill);
    ops := Idle + Failing(n) + fill;
    LongestDelay(c);
    assert Lower("a") == "a" && Lower("b") == "b";
    at := GapForgets(Run(start, ops), "a", "b", 0, gap);
  }
}
