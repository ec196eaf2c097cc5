/** The destination throttle: an adaptive concurrency limit with exponential
    cooldown, a bounded table and release tokens. Times are nanoseconds since
    the zero time. */
module Throttle {
  import opened Counting
  import opened Text

  const Second := 1_000_000_000
  const Day := 24 * 3600 * Second

  /** A 64-bit signed duration. */
  newtype Duration = x: int | -0x8000_0000_0000_0000 <= x < 0x8000_0000_0000_0000

  datatype Config = Config(concurrency: int, initial: Duration, max: Duration, maxDestinations: int)

  predicate Valid(c: Config) {
    && Second <= c.initial as int <= c.max as int <= Day
    && 1 <= c.concurrency <= 1000
    && c.maxDestinations >= 1
  }

  /** The configuration as written: zero and empty stand for the defaults. */
  datatype RawConfig = RawConfig(concurrency: int, initial: string, max: string, maxDestinations: int)

  /** `parse` is the duration syntax; None is a syntax error. */
  method Validate(raw: RawConfig, parse: string -> Option<Duration>) returns (r: Option<Config>)
    ensures var i := parse(if raw.initial == "" then "30s" else raw.initial);
            var m := parse(if raw.max == "" then "1h" else raw.max);
            var concurrency := if raw.concurrency == 0 then 4 else raw.concurrency;
            var destinations := if raw.maxDestinations == 0 then 10000 else raw.maxDestinations;
            r == if i.Some? && m.Some? && Valid(Config(concurrency, i.value, m.value, destinations))
                 then Some(Config(concurrency, i.value, m.value, destinations)) else None
  {
    var c := raw;
    if c.concurrency == 0 {
      c := c.(concurrency := 4);
    }
    if c.maxDestinations == 0 {
      c := c.(maxDestinations := 10000);
    }
    if c.initial == "" {
      c := c.(initial := "30s");
    }
    if c.max == "" {
      c := c.(max := "1h");
    }
    var initial, max := parse(c.initial), parse(c.max);
    if initial.None? || max.None? {
      return None;
    }
    if initial.value < 1_000_000_000 || max.value < initial.value || max.value > 86_400_000_000_000
       || c.concurrency < 1 || c.concurrency > 1000 || c.maxDestinations < 1 {
      return None;
    }
    return Some(Config(c.concurrency, initial.value, max.value, c.maxDestinations));
  }

  /** `serial` is the identity of the heap object a release closure points to. */
  datatype Entry = Entry(serial: nat, active: int, limit: int, failures: nat, until: nat, last: nat)

  datatype Token = Token(domain: string, serial: nat, done: bool)

  datatype State = State(config: Config, table: map<string, Entry>, tokens: seq<Token>, next: nat)

  // ---------- the cooldown length ----------

  function Min(a: int, b: int): int {
    if a <= b then a else b
  }

  /** initial * 2^(failures-1), capped at max. */
  function Delay(c: Config, failures: nat): (r: nat)
    requires Valid(c)
    ensures r <= c.max as int && (failures > 0 ==> r > 0)
  {
    if failures == 0 then 0 else Min(c.initial as int * Pow2(failures - 1), c.max as int)
  }

  lemma MulMonotone(a: nat, x: nat, y: nat)
    requires x <= y
    ensures a * x <= a * y
  {
  }

  lemma {:induction false} DelayMonotone(c: Config, m: nat, n: nat)
    requires Valid(c) && m <= n
    ensures Delay(c, m) <= Delay(c, n)
  {
    if m > 0 {
      Pow2Monotone(m - 1, n - 1);
      MulMonotone(c.initial as int, Pow2(m - 1), Pow2(n - 1));
    }
  }

  /** The doubling loop, in 64-bit arithmetic. */
  method Backoff(c: Config, failures: nat) returns (delay: Duration)
    requires Valid(c) && failures >= 1
    ensures delay as int == Delay(c, failures)
  {
    delay := c.initial;
    var i := 1;
    while i < failures && delay < c.max
      invariant 1 <= i <= failures
      invariant delay as int == c.initial as int * Pow2(i - 1)
      invariant delay as int < 2 * c.max as int
    {
      delay := delay * 2;
      i := i + 1;
    }
    Pow2Monotone(i - 1, failures - 1);
    MulMonotone(c.initial as int, Pow2(i - 1), Pow2(failures - 1));
    if delay > c.max {
      delay := c.max;
    }
  }

  // ---------- steps ----------

  predicate Stale(e: Entry, now: nat, max: int) {
    e.active == 0 && now - e.last > 2 * max
  }

  function Evict(table: map<string, Entry>, now: nat, max: int): map<string, Entry> {
    map d | d in table && !Stale(table[d], now, max) :: table[d]
  }

  function Room(s: State, domain: string, now: nat): map<string, Entry> {
    if domain !in s.table && |s.table| >= s.config.maxDestinations
    then Evict(s.table, now, s.config.max as int) else s.table
  }

  function EntryFor(s: State, domain: string): Entry {
    if domain in s.table then s.table[domain] else Entry(s.next, 0, s.config.concurrency, 0, 0, 0)
  }

  function AfterAcquire(s: State, name: string, now: nat): (r: (State, bool)) {
    var d := Lower(name);
    var room := Room(s, d, now);
    if d !in s.table && |room| >= s.config.maxDestinations then (s.(table := room), false)
    else
      var e := EntryFor(s, d).(last := now);
      var next := if d in s.table then s.next else s.next + 1;
      if e.active >= e.limit || now < e.until then (s.(table := room[d := e], next := next), false)
      else
        var tokens := s.tokens + [Token(d, e.serial, false)];
        (s.(table := room[d := e.(active := e.active + 1)], next := next, tokens := tokens), true)
  }

  /** The closure of the `i`-th granted slot runs; a second run does nothing. */
  function AfterRelease(s: State, i: nat, now: nat): State {
    if i >= |s.tokens| || s.tokens[i].done then s
    else
      var t := s.tokens[i];
      var marked := s.(tokens := s.tokens[i := t.(done := true)]);
      if t.domain in s.table && s.table[t.domain].serial == t.serial then
        var e := s.table[t.domain];
        marked.(table := s.table[t.domain := e.(active := e.active - 1, last := now)])
      else marked
  }

  /** The clock is read once for `last` and once more for the cooldown. */
  function AfterObserve(s: State, name: string, success: bool, temporary: bool, now: nat, later: nat): State
    requires Valid(s.config)
  {
    var d := Lower(name);
    if d !in s.table then s
    else
      var e := s.table[d].(last := now);
      var changed :=
        if temporary then
          e.(failures := e.failures + 1,
             limit := if e.limit / 2 < 1 then 1 else e.limit / 2,
             until := later + Delay(s.config, e.failures + 1))
        else if success && later >= e.until then
          e.(failures := 0, limit := if e.limit < s.config.concurrency then e.limit + 1 else e.limit)
        else e;
      s.(table := s.table[d := changed])
  }

  // ---------- the object ----------

  class DestinationThrottle {
    const config: Config
    var states: map<string, Entry>
    var tokens: seq<Token>
    var next: nat

    ghost function View(): State
      reads this
    {
      State(config, states, tokens, next)
    }

    constructor (c: Config)
      requires Valid(c)
      ensures View() == State(c, map[], [], 0)
    {
      config, states, tokens, next := c, map[], [], 0;
    }

    method EvictStale(now: nat)
      modifies this`states
      ensures states == Evict(old(states), now, config.max as int)
    {
      var keys := states.Keys;
      while keys != {}
        invariant keys <= states.Keys
        invariant states == map d | d in old(states)
                  && (d in keys || !Stale(old(states)[d], now, config.max as int)) :: old(states)[d]
      {
        var k :| k in keys;
        keys := keys - {k};
        if states[k].active == 0 && now - states[k].last > 2 * config.max as int {
          states := states - {k};
        }
      }
    }

    /** On success the index of the new token stands for the release closure. */
    method Acquire(name: string, now: nat) returns (granted: bool)
      modifies this
      ensures (View(), granted) == AfterAcquire(old(View()), name, now)
    {
      var domain := Lower(name);
      if domain !in states {
        if |states| >= config.maxDestinations {
          EvictStale(now);
        }
        if |states| >= config.maxDestinations {
          return false;
        }
        states := states[domain := Entry(next, 0, config.concurrency, 0, 0, 0)];
        next := next + 1;
      }
      states := states[domain := states[domain].(last := now)];
      var s := states[domain];
      assert states == Room(old(View()), domain, now)[domain := s];
      if s.active >= s.limit || now < s.until {
        return false;
      }
      states := states[domain := s.(active := s.active + 1)];
      assert states == Room(old(View()), domain, now)[domain := s.(active := s.active + 1)];
      tokens := tokens + [Token(domain, s.serial, false)];
      return true;
    }

    method Release(i: nat, now: nat)
      requires i < |tokens|
      modifies this`tokens, this`states
      ensures View() == AfterRelease(old(View()), i, now)
    {
      var t := tokens[i];
      if !t.done {
        tokens := tokens[i := t.(done := true)];
        if t.domain in states && states[t.domain].serial == t.serial {
          var s := states[t.domain];
          states := states[t.domain := s.(active := s.active - 1, last := now)];
        }
      }
    }

    method Observe(name: string, success: bool, temporary: bool, now: nat, later: nat)
      requires Valid(config)
      modifies this`states
      ensures View() == AfterObserve(old(View()), name, success, temporary, now, later)
    {
      var domain := Lower(name);
      if domain !in states {
        return;
      }
      var s := states[domain].(last := now);
      if temporary {
        s := s.(failures := s.failures + 1, limit := s.limit / 2);
        if s.limit < 1 {
          s := s.(limit := 1);
        }
        var delay := Backoff(config, s.failures);
        s := s.(until := later + delay as int);
      } else if success {
        if !(later < s.until) {
          s := s.(failures := 0);
          if s.limit < config.concurrency {
            s := s.(limit := s.limit + 1);
          }
        }
      }
      states := states[domain := s];
    }
  }
}
