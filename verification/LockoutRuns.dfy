/** What every serial run of authentication attempts keeps, for a clock that
    never goes back. */
module LockoutRuns {
  import opened Counting
  import opened Lockout

  datatype Op =
    | Login(user: string, ip: string, now: nat, facts: Facts)
    | Sweep(now: nat)

  function Next(s: Store, op: Op): Store {
    match op
    case Login(user, ip, now, facts) => Attempt(s, user, ip, now, facts).0
    case Sweep(now) => Cleanup(s, now)
  }

  function Run(s: Store, ops: seq<Op>): Store
    decreases |ops|
  {
    if ops == [] then s else Run(Next(s, ops[0]), ops[1..])
  }

  /** The verdicts of the attempts of a run. */
  function Verdicts(s: Store, ops: seq<Op>): seq<Verdict>
    decreases |ops|
  {
    if ops == [] then []
    else
      (if ops[0].Login? then [Attempt(s, ops[0].user, ops[0].ip, ops[0].now, ops[0].facts).1] else [])
      + Verdicts(Next(s, ops[0]), ops[1..])
  }

  ghost predicate Timed(clock: nat, ops: seq<Op>)
    decreases |ops|
  {
    ops == [] || (clock <= ops[0].now && Timed(ops[0].now, ops[1..]))
  }

  // ---------- what one attempt does ----------

  /** The check that decides for this account passes: the directory's if it
      matches, else that of single sign-on, else the password. */
  predicate Passes(f: Facts) {
    f.known && f.enabled && (if f.directory then f.directoryOk else if f.sso then f.ssoOk else f.passwordOk)
  }

  /** An account nobody knows is named as such only when the password would decide,
      and a failed sign-on is passed on as the provider reports it. */
  function Refusal(f: Facts): Verdict {
    if !f.directory && !f.sso && !f.known then UserNotFound
    else if !f.directory && f.sso && f.known && f.enabled then ProviderError
    else InvalidCredentials
  }

  predicate Barring(table: map<string, Record>, key: string, now: nat, threshold: nat) {
    && key in table
    && (now < table[key].lockedUntil || (now - table[key].first <= Window && table[key].count >= threshold))
  }

  /** One more failure is on record for the key, and no other key changes: counted
      within the window of the first, or the first of a new one. At the threshold
      the key is locked for fifteen minutes. */
  ghost predicate CountedOnce(
    before: map<string, Record>, after: map<string, Record>, key: string, now: nat, threshold: nat) {
    && after.Keys == before.Keys + {key} && (forall k :: k in before && k != key ==> after[k] == before[k])
    && after[key].last == now
    && (if key in before && now - before[key].first <= Window
        then after[key].count == before[key].count + 1 && after[key].first == before[key].first
        else after[key].count == 1 && after[key].first == now)
    && (after[key].count == threshold ==> after[key].lockedUntil == now + 15 * Minute)
  }

  ghost predicate Forgotten(before: map<string, Record>, after: map<string, Record>, key: string) {
    after.Keys == before.Keys - {key} && forall k :: k in after ==> after[k] == before[k]
  }

  lemma {:induction false} FailedCountsOnce(
    table: map<string, Record>, key: string, now: nat, threshold: nat, divisor: nat)
    requires threshold > 1 && divisor > 0
    ensures CountedOnce(table, Failed(table, key, now, threshold, divisor), key, now, threshold)
  {
    FirstLockLength();
  }

  /** A barred name or address is refused and nothing changes. Otherwise the attempt
      succeeds exactly when the deciding check passes, and then the failures of the
      name and the address are forgotten; if not, one failure is counted for each. */
  lemma {:induction false} AttemptMeaning(s: Store, user: string, ip: string, now: nat, f: Facts)
    ensures var (t, verdict) := Attempt(s, user, ip, now, f);
            if Barring(s.users, user, now, MaxFailures) then
              t == s && verdict == AccountLocked(s.users[user].lockedUntil)
            else if ip != "" && Barring(s.ips, ip, now, 3 * MaxFailures) then
              t == s && verdict == RateLimited(s.ips[ip].lockedUntil)
            else if Passes(f) then
              verdict == Success && Forgotten(s.users, t.users, user)
              && (if ip != "" then Forgotten(s.ips, t.ips, ip) else t.ips == s.ips)
            else
              verdict == Refusal(f)
              && CountedOnce(s.users, t.users, user, now, MaxFailures)
              && (if ip != "" then CountedOnce(s.ips, t.ips, ip, now, 3 * MaxFailures) else t.ips == s.ips)
  {
    FailedCountsOnce(s.users, user, now, MaxFailures, 1);
    FailedCountsOnce(s.ips, ip, now, 3 * MaxFailures, 3);
  }

  // ---------- counters never pass their thresholds ----------

  predicate RecordOk(r: Record, clock: nat, threshold: nat) {
    && 1 <= r.count <= threshold
    && r.first <= r.last <= clock
    && r.lockedUntil == (if r.count == threshold then r.last + LockoutLength else 0)
  }

  ghost predicate TableOk(table: map<string, Record>, clock: nat, threshold: nat) {
    forall k :: k in table ==> RecordOk(table[k], clock, threshold)
  }

  ghost predicate Inv(s: Store, clock: nat) {
    TableOk(s.users, clock, MaxFailures) && TableOk(s.ips, clock, 3 * MaxFailures)
  }

  lemma FirstLockLength()
    ensures LockLength(0) == LockoutLength
  {
    assert Pow2(0) == 1 && ShiftOne(0) == 1;
  }

  /** Counting a failure of an unlocked record reaches the threshold at most, so
      the shift exponent is 0 and the lock lasts fifteen minutes. */
  lemma {:induction false} FailureKeeps(
    table: map<string, Record>, key: string, clock: nat, now: nat, threshold: nat, divisor: nat)
    requires TableOk(table, clock, threshold) && clock <= now && threshold > 1 && divisor > 0
    requires key in table ==> !Locked(table[key], now, threshold)
    ensures TableOk(Failed(table, key, now, threshold, divisor), now, threshold)
    ensures key in table && now - table[key].first <= Window ==>
              Failed(table, key, now, threshold, divisor)[key].count == table[key].count + 1 <= threshold
  {
    FirstLockLength();
    var after := Failed(table, key, now, threshold, divisor);
    assert 0 / divisor == 0;
    forall k | k in after
      ensures RecordOk(after[k], now, threshold)
    {
      if k in table { assert RecordOk(table[k], clock, threshold); }
    }
  }

  lemma {:induction false} StepKeeps(s: Store, clock: nat, op: Op)
    requires Inv(s, clock) && clock <= op.now
    ensures Inv(Next(s, op), op.now)
  {
    if op.Login? && Next(s, op) == AfterFailure(s, op.user, op.ip, op.now)
       && !(op.user in s.users && Locked(s.users[op.user], op.now, MaxFailures))
       && !(op.ip != "" && op.ip in s.ips && Locked(s.ips[op.ip], op.now, 3 * MaxFailures)) {
      FailureKeeps(s.users, op.user, clock, op.now, MaxFailures, 1);
      if op.ip != "" { FailureKeeps(s.ips, op.ip, clock, op.now, 3 * MaxFailures, 3); }
    }
  }

  /** No reachable counter exceeds its threshold. */
  lemma {:induction false} RunKeeps(s: Store, clock: nat, ops: seq<Op>)
    requires Inv(s, clock) && Timed(clock, ops)
    ensures Inv(Run(s, ops), if ops == [] then clock else ops[|ops| - 1].now)
    decreases |ops|
  {
    if ops != [] {
      StepKeeps(s, clock, ops[0]);
      RunKeeps(Next(s, ops[0]), ops[0].now, ops[1..]);
    }
  }

  /** Why the bound matters: the formula alone would wrap to a negative length. */
  lemma LargeExponentWouldWrap()
    ensures LockLength(24) < 0
  {
    assert Pow2(4) == 16 by { assert Pow2(2) == 4; }
    assert Pow2(8) == 256 by { assert Pow2(6) == 64; }
    assert Pow2(12) == 4096 by { assert Pow2(10) == 1024; }
    assert Pow2(16) == 65536 by { assert Pow2(14) == 16384; }
    assert Pow2(20) == 1048576 by { assert Pow2(18) == 262144; }
    assert Pow2(24) == 16777216 by { assert Pow2(22) == 4194304; }
  }

  // ---------- a full counter refuses until both periods are over ----------

  predicate Barred(r: Record, now: nat) {
    now < r.lockedUntil || now - r.first <= Window
  }

  ghost predicate AllBarred(r: Record, ops: seq<Op>) {
    forall i :: 0 <= i < |ops| ==> Barred(r, ops[i].now)
  }

  lemma {:induction false} BarredStep(s: Store, clock: nat, op: Op, user: string)
    requires Inv(s, clock) && clock <= op.now
    requires user in s.users && s.users[user].count == MaxFailures && Barred(s.users[user], op.now)
    ensures user in Next(s, op).users && Next(s, op).users[user] == s.users[user]
    ensures op.Login? && op.user == user ==>
              Attempt(s, user, op.ip, op.now, op.facts) == (s, AccountLocked(s.users[user].lockedUntil))
  {
    assert RecordOk(s.users[user], clock, MaxFailures);
  }

  /** Through any run of attempts and sweeps in which the lock has not ended or
      the window has not passed, every attempt on a full counter is refused and
      the record does not change. */
  lemma {:induction false} FullCounterRefuses(s: Store, clock: nat, ops: seq<Op>, user: string, k: nat)
    requires Inv(s, clock) && Timed(clock, ops) && k < |ops|
    requires user in s.users && s.users[user].count == MaxFailures && AllBarred(s.users[user], ops)
    ensures user in Run(s, ops[..k]).users && Run(s, ops[..k]).users[user] == s.users[user]
    ensures ops[k].Login? && ops[k].user == user ==>
              Attempt(Run(s, ops[..k]), user, ops[k].ip, ops[k].now, ops[k].facts).1
                  == AccountLocked(s.users[user].lockedUntil)
    decreases |ops|
  {
    assert Barred(s.users[user], ops[0].now);
    BarredStep(s, clock, ops[0], user);
    if k > 0 {
      StepKeeps(s, clock, ops[0]);
      assert ops[..k][0] == ops[0] && ops[..k][1..] == ops[1..][..k - 1];
      assert AllBarred(s.users[user], ops[1..]) by {
        forall i | 0 <= i < |ops[1..]|
          ensures Barred(s.users[user], ops[1..][i].now)
        {
          assert ops[1..][i] == ops[i + 1];
        }
      }
      FullCounterRefuses(Next(s, ops[0]), ops[0].now, ops[1..], user, k - 1);
    }
  }

  /** And no longer: once both periods are over, the credentials are consulted again. */
  lemma RefusedExactlyWhileBarred(s: Store, clock: nat, user: string, ip: string, now: nat, f: Facts)
    requires Inv(s, clock) && clock <= now && user in s.users && s.users[user].count == MaxFailures
    ensures Attempt(s, user, ip, now, f).1.AccountLocked? <==> Barred(s.users[user], now)
  {
  }

  // ---------- sweeping is invisible ----------

  /** A record that can influence nothing from `now` on. */
  predicate Dead(r: Record, now: nat) {
    r.lockedUntil <= now && now - r.first > Window
  }

  ghost predicate SameUpToDead(a: map<string, Record>, b: map<string, Record>, now: nat) {
    forall k :: (k in a && k in b && a[k] == b[k])
                || ((k in a ==> Dead(a[k], now)) && (k in b ==> Dead(b[k], now)))
  }

  ghost predicate Similar(a: Store, b: Store, now: nat) {
    SameUpToDead(a.users, b.users, now) && SameUpToDead(a.ips, b.ips, now)
  }

  lemma SimilarTables(
    a: map<string, Record>, b: map<string, Record>, t: nat, now: nat, key: string, threshold: nat, divisor: nat)
    requires SameUpToDead(a, b, t) && t <= now && divisor > 0
    ensures SameUpToDead(a, b, now)
    ensures (key in a && Locked(a[key], now, threshold)) <==> (key in b && Locked(b[key], now, threshold))
    ensures key in a && Locked(a[key], now, threshold) ==> a[key] == b[key]
    ensures SameUpToDead(Failed(a, key, now, threshold, divisor), Failed(b, key, now, threshold, divisor), now)
    ensures SameUpToDead(a - {key}, b - {key}, now)
  {
  }

  lemma {:induction false} SimilarAttempt(a: Store, b: Store, t: nat, user: string, ip: string, now: nat, f: Facts)
    requires Similar(a, b, t) && t <= now
    ensures Attempt(a, user, ip, now, f).1 == Attempt(b, user, ip, now, f).1
    ensures Similar(Attempt(a, user, ip, now, f).0, Attempt(b, user, ip, now, f).0, now)
  {
    SimilarTables(a.users, b.users, t, now, user, MaxFailures, 1);
    SimilarTables(a.ips, b.ips, t, now, ip, 3 * MaxFailures, 3);
  }

  lemma PurgeIsSimilar(table: map<string, Record>, clock: nat, now: nat, threshold: nat)
    requires TableOk(table, clock, threshold) && clock <= now
    ensures SameUpToDead(Purge(table, now), table, now)
  {
    forall k | k in table && k !in Purge(table, now)
      ensures Dead(table[k], now)
    {
      assert RecordOk(table[k], clock, threshold);
    }
  }

  lemma {:induction false} SimilarVerdicts(a: Store, b: Store, clock: nat, ops: seq<Op>)
    requires Similar(a, b, clock) && Inv(a, clock) && Inv(b, clock) && Timed(clock, ops)
    ensures Verdicts(a, ops) == Verdicts(b, ops)
    decreases |ops|
  {
    if ops != [] {
      var op := ops[0];
      StepKeeps(a, clock, op);
      StepKeeps(b, clock, op);
      match op {
        case Login(user, ip, now, facts) =>
          SimilarAttempt(a, b, clock, user, ip, now, facts);
        case Sweep(now) =>
          SimilarTables(a.users, b.users, clock, now, "", MaxFailures, 1);
          SimilarTables(a.ips, b.ips, clock, now, "", 3 * MaxFailures, 3);
          SweptSimilar(a.users, b.users, clock, now, MaxFailures);
          SweptSimilar(a.ips, b.ips, clock, now, 3 * MaxFailures);
      }
      SimilarVerdicts(Next(a, op), Next(b, op), op.now, ops[1..]);
    }
  }

  lemma SweptSimilar(a: map<string, Record>, b: map<string, Record>, clock: nat, now: nat, threshold: nat)
    requires SameUpToDead(a, b, now) && TableOk(a, clock, threshold) && TableOk(b, clock, threshold) && clock <= now
    ensures SameUpToDead(Purge(a, now), Purge(b, now), now)
  {
  }

  /** From a swept and an unswept store, every later run of attempts and sweeps
      gives the same verdicts. */
  lemma {:induction false} CleanupIsInvisible(s: Store, clock: nat, now: nat, ops: seq<Op>)
    requires Inv(s, clock) && clock <= now && Timed(now, ops)
    ensures Verdicts(Cleanup(s, now), ops) == Verdicts(s, ops)
  {
    PurgeIsSimilar(s.users, clock, now, MaxFailures);
    PurgeIsSimilar(s.ips, clock, now, 3 * MaxFailures);
    StepKeeps(s, clock, Sweep(now));
    SimilarVerdicts(Cleanup(s, now), s, now, ops);
  }

  // ---------- how many guesses an hour allows ----------

  /** A failed credential check for `user` in the hour that starts at `t`. */
  predicate Guess(s: Store, op: Op, user: string, t: nat) {
    op.Login? && op.user == user && t <= op.now <= t + Window
    && Attempt(s, op.user, op.ip, op.now, op.facts).1 != Success
    && !Attempt(s, op.user, op.ip, op.now, op.facts).1.AccountLocked?
    && !Attempt(s, op.user, op.ip, op.now, op.facts).1.RateLimited?
  }

  function Guesses(s: Store, ops: seq<Op>, user: string, t: nat): nat
    decreases |ops|
  {
    if ops == [] then 0
    else (if Guess(s, ops[0], user, t) then 1 else 0) + Guesses(Next(s, ops[0]), ops[1..], user, t)
  }

  /** `n` guesses so far are accounted for by the record of `user`. */
  ghost predicate Accounted(s: Store, clock: nat, user: string, t: nat, n: nat) {
    clock <= t + Window ==>
      if user !in s.users then n == 0
      else if n > 0 && s.users[user].last < t then false
      else if s.users[user].first >= t then n <= MaxFailures - 1 + s.users[user].count
      else n <= s.users[user].count - 1
  }

  predicate LogsIn(s: Store, op: Op, user: string) {
    op.Login? && op.user == user && Attempt(s, op.user, op.ip, op.now, op.facts).1 == Success
  }

  /** No attempt of the run for that name succeeds; right credentials may be
      offered and refused. */
  predicate NoLogin(s: Store, ops: seq<Op>, user: string)
    decreases |ops|
  {
    ops == [] || (!LogsIn(s, ops[0], user) && NoLogin(Next(s, ops[0]), ops[1..], user))
  }

  lemma {:induction false} GuessStep(s: Store, clock: nat, op: Op, user: string, t: nat, n: nat)
    requires Inv(s, clock) && clock <= op.now && n <= 2 * MaxFailures - 1 && Accounted(s, clock, user, t, n)
    requires !LogsIn(s, op, user) && (clock < t ==> n == 0)
    ensures var n' := n + (if Guess(s, op, user, t) then 1 else 0);
            n' <= 2 * MaxFailures - 1 && Accounted(Next(s, op), op.now, user, t, n') && (op.now < t ==> n' == 0)
  {
    StepKeeps(s, clock, op);
    if user in s.users { assert RecordOk(s.users[user], clock, MaxFailures); }
    if user in Next(s, op).users { assert RecordOk(Next(s, op).users[user], op.now, MaxFailures); }
  }

  lemma {:induction false} GuessRun(s: Store, clock: nat, ops: seq<Op>, user: string, t: nat, n: nat)
    requires Inv(s, clock) && Timed(clock, ops) && n <= 2 * MaxFailures - 1 && Accounted(s, clock, user, t, n)
    requires NoLogin(s, ops, user) && (clock < t ==> n == 0)
    ensures n + Guesses(s, ops, user, t) <= 2 * MaxFailures - 1
    decreases |ops|
  {
    if ops != [] {
      GuessStep(s, clock, ops[0], user, t, n);
      StepKeeps(s, clock, ops[0]);
      GuessRun(Next(s, ops[0]), ops[0].now, ops[1..], user, t, n + (if Guess(s, ops[0], user, t) then 1 else 0));
    }
  }

  /** In any hour of any run, at most nine wrong credentials for one user name
      are checked, as long as nobody logs in under that name. */
  lemma {:induction false} AtMostNineGuessesAnHour(ops: seq<Op>, user: string, t: nat)
    requires Timed(0, ops) && NoLogin(Store(map[], map[]), ops, user)
    ensures Guesses(Store(map[], map[]), ops, user, t) <= 9
  {
    GuessRun(Store(map[], map[]), 0, ops, user, t, 0);
  }

  // ---------- and how many it takes ----------

  /** All of the run lies in the hour that starts at `t`. */
  ghost predicate WithinHour(ops: seq<Op>, t: nat) {
    forall i :: 0 <= i < |ops| ==> t <= ops[i].now <= t + Window
  }

  /** The record of `user` counts the `n` guesses made since `t`. */
  ghost predicate Counts(s: Store, user: string, t: nat, n: nat) {
    if n == 0 then user !in s.users
    else user in s.users && s.users[user].count == n && t <= s.users[user].first <= s.users[user].last
  }

  lemma {:induction false} CountStep(s: Store, clock: nat, op: Op, user: string, t: nat, n: nat)
    requires Inv(s, clock) && clock <= op.now && t <= op.now <= t + Window && Counts(s, user, t, n)
    requires !LogsIn(s, op, user)
    ensures Counts(Next(s, op), user, t, n + if Guess(s, op, user, t) then 1 else 0)
  {
    if op.Login? { AttemptMeaning(s, op.user, op.ip, op.now, op.facts); }
    if user in s.users { assert RecordOk(s.users[user], clock, MaxFailures); }
  }

  /** Within an hour without a login the counter of a name that had none is the
      number of wrong credentials offered. */
  lemma {:induction false} CounterCountsGuesses(s: Store, clock: nat, ops: seq<Op>, user: string, t: nat, n: nat)
    requires Inv(s, clock) && Timed(clock, ops) && WithinHour(ops, t) && NoLogin(s, ops, user) && Counts(s, user, t, n)
    ensures Counts(Run(s, ops), user, t, n + Guesses(s, ops, user, t))
    decreases |ops|
  {
    if ops != [] {
      CountStep(s, clock, ops[0], user, t, n);
      StepKeeps(s, clock, ops[0]);
      CounterCountsGuesses(Next(s, ops[0]), ops[0].now, ops[1..], user, t,
                           n + if Guess(s, ops[0], user, t) then 1 else 0);
    }
  }

  /** The fifth one locks the name: every further attempt of that hour is refused,
      whatever is offered. */
  lemma {:induction false} FiveGuessesLock(ops: seq<Op>, user: string, t: nat, ip: string, now: nat, f: Facts)
    requires Timed(0, ops) && WithinHour(ops, t) && NoLogin(Store(map[], map[]), ops, user)
    requires Guesses(Store(map[], map[]), ops, user, t) == MaxFailures && t <= now <= t + Window
    requires ops != [] && ops[|ops| - 1].now <= now
    ensures Attempt(Run(Store(map[], map[]), ops), user, ip, now, f).1.AccountLocked?
  {
    CounterCountsGuesses(Store(map[], map[]), 0, ops, user, t, 0);
  }
}
