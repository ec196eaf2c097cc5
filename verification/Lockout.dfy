/** Account lockout: failure counters by user name and by address. Times are
    nanoseconds since the zero time. */
module Lockout {
  import opened Counting

  const Minute := 60_000_000_000
  const MaxFailures := 5
  const LockoutLength := 15 * Minute
  const Window := 60 * Minute
  const Day := 24 * 60 * Minute

  datatype Record = Record(count: nat, first: nat, last: nat, lockedUntil: int)

  /** The two failure tables. */
  datatype Store = Store(users: map<string, Record>, ips: map<string, Record>)

  // ---------- one record ----------

  predicate Locked(r: Record, now: nat, threshold: nat) {
    now < r.lockedUntil || (now - r.first <= Window && r.count >= threshold)
  }

  /** The value kept by 64-bit signed arithmetic. */
  function Wrap(x: int): int {
    (x + 0x8000_0000_0000_0000) % 0x1_0000_0000_0000_0000 - 0x8000_0000_0000_0000
  }

  /** 1 << e in 64 bits. */
  function ShiftOne(e: nat): int {
    if e < 64 then Wrap(Pow2(e)) else 0
  }

  /** The lock length for an exponent: doubled, wrapped, capped at a day. */
  function LockLength(e: nat): int {
    var length := Wrap(LockoutLength * ShiftOne(e));
    if length > Day then Day else length
  }

  function Restart(now: nat): Record {
    Record(1, now, now, 0)
  }

  /** A further failure: restarted outside the window, counted inside it. */
  function Bump(r: Record, now: nat, threshold: nat, divisor: nat): Record
    requires divisor > 0
  {
    if now - r.first > Window then Restart(now)
    else
      var n := r.count + 1;
      if n >= threshold then Record(n, r.first, now, now + LockLength((n - threshold) / divisor))
      else r.(count := n, last := now)
  }

  function Failed(table: map<string, Record>, key: string, now: nat, threshold: nat, divisor: nat): map<string, Record>
    requires divisor > 0
  {
    table[key := if key in table then Bump(table[key], now, threshold, divisor) else Restart(now)]
  }

  predicate Expired(r: Record, now: nat) {
    now - r.last > Window && now > r.lockedUntil
  }

  function Purge(table: map<string, Record>, now: nat): map<string, Record> {
    map k | k in table && !Expired(table[k], now) :: table[k]
  }

  // ---------- an attempt ----------

  /** What the account table and the credential checks say; each `...Ok` is the
      verdict of a password check this model does not look into. */
  datatype Facts = Facts(known: bool, enabled: bool, directory: bool, directoryOk: bool, sso: bool, ssoOk: bool,
      passwordOk: bool)

  datatype Verdict =
    | AccountLocked(until: int)
    | RateLimited(until: int)
    | InvalidCredentials
    | UserNotFound
    | ProviderError
    | Success

  /** The verdict once neither lock applies. */
  function Credentials(f: Facts): Verdict {
    if f.known && !f.enabled then InvalidCredentials
    else if f.directory then (if f.known && f.directoryOk then Success else InvalidCredentials)
    else if f.sso then (if !f.known then InvalidCredentials else if f.ssoOk then Success else ProviderError)
    else if !f.known then UserNotFound
    else if f.passwordOk then Success
    else InvalidCredentials
  }

  function AfterFailure(s: Store, user: string, ip: string, now: nat): Store {
    Store(Failed(s.users, user, now, MaxFailures, 1),
          if ip != "" then Failed(s.ips, ip, now, 3 * MaxFailures, 3) else s.ips)
  }

  function AfterSuccess(s: Store, user: string, ip: string): Store {
    Store(s.users - {user}, if ip != "" then s.ips - {ip} else s.ips)
  }

  function Attempt(s: Store, user: string, ip: string, now: nat, f: Facts): (Store, Verdict) {
    if user in s.users && Locked(s.users[user], now, MaxFailures) then (s, AccountLocked(s.users[user].lockedUntil))
    else if ip != "" && ip in s.ips && Locked(s.ips[ip], now, 3 * MaxFailures)
        then (s, RateLimited(s.ips[ip].lockedUntil))
    else if Credentials(f) == Success then (AfterSuccess(s, user, ip), Success)
    else (AfterFailure(s, user, ip, now), Credentials(f))
  }

  function Cleanup(s: Store, now: nat): Store {
    Store(Purge(s.users, now), Purge(s.ips, now))
  }

  // ---------- the object ----------

  class UserStore {
    var failuresByUsername: map<string, Record>
    var failuresByIP: map<string, Record>

    ghost function View(): Store
      reads this
    {
      Store(failuresByUsername, failuresByIP)
    }

    constructor ()
      ensures View() == Store(map[], map[])
    {
      failuresByUsername, failuresByIP := map[], map[];
    }

    method IsLocked(username: string, now: nat) returns (locked: bool, until: int)
      ensures locked <==> username in failuresByUsername && Locked(failuresByUsername[username], now, MaxFailures)
      ensures locked ==> until == failuresByUsername[username].lockedUntil
    {
      if username !in failuresByUsername {
        return false, 0;
      }
      var record := failuresByUsername[username];
      if now < record.lockedUntil {
        return true, record.lockedUntil;
      }
      if now - record.first <= Window && record.count >= MaxFailures {
        return true, record.lockedUntil;
      }
      return false, 0;
    }

    method IsIPLocked(ip: string, now: nat) returns (locked: bool, until: int)
      ensures locked <==> ip != "" && ip in failuresByIP && Locked(failuresByIP[ip], now, 3 * MaxFailures)
      ensures locked ==> until == failuresByIP[ip].lockedUntil
    {
      if ip == "" || ip !in failuresByIP {
        return false, 0;
      }
      var record := failuresByIP[ip];
      if now < record.lockedUntil {
        return true, record.lockedUntil;
      }
      var maxIPFailures := MaxFailures * 3;
      if now - record.first <= Window && record.count >= maxIPFailures {
        return true, record.lockedUntil;
      }
      return false, 0;
    }

    method RecordFailure(username: string, ip: string, now: nat)
      modifies this
      ensures View() == AfterFailure(old(View()), username, ip, now)
    {
      if username in failuresByUsername {
        var record := failuresByUsername[username];
        if now - record.first > Window {
          record := Record(1, now, now, 0);
        } else {
          record := record.(count := record.count + 1, last := now);
          if record.count >= MaxFailures {
            var length := Wrap(LockoutLength * ShiftOne(record.count - MaxFailures));
            if length > Day {
              length := Day;
            }
            record := record.(lockedUntil := now + length);
          }
        }
        failuresByUsername := failuresByUsername[username := record];
      } else {
        failuresByUsername := failuresByUsername[username := Record(1, now, now, 0)];
      }
      if ip != "" {
        if ip in failuresByIP {
          var record := failuresByIP[ip];
          if now - record.first > Window {
            record := Record(1, now, now, 0);
          } else {
            record := record.(count := record.count + 1, last := now);
            var maxIPFailures := MaxFailures * 3;
            if record.count >= maxIPFailures {
              var length := Wrap(LockoutLength * ShiftOne((record.count - maxIPFailures) / 3));
              if length > Day {
                length := Day;
              }
              record := record.(lockedUntil := now + length);
            }
          }
          failuresByIP := failuresByIP[ip := record];
        } else {
          failuresByIP := failuresByIP[ip := Record(1, now, now, 0)];
        }
      }
    }

    method ClearFailures(username: string, ip: string)
      modifies this
      ensures View() == AfterSuccess(old(View()), username, ip)
    {
      failuresByUsername := failuresByUsername - {username};
      if ip != "" {
        failuresByIP := failuresByIP - {ip};
      }
    }

    /** One atomic step. */
    method AuthenticateWithIP(username: string, ip: string, now: nat, f: Facts) returns (verdict: Verdict)
      modifies this
      ensures (View(), verdict) == Attempt(old(View()), username, ip, now, f)
    {
      var locked, until := IsLocked(username, now);
      if locked {
        return AccountLocked(until);
      }
      if ip != "" {
        locked, until := IsIPLocked(ip, now);
        if locked {
          return RateLimited(until);
        }
      }
      if f.known && !f.enabled {
        RecordFailure(username, ip, now);
        return InvalidCredentials;
      }
      if f.directory {
        if !f.known || !f.directoryOk {
          RecordFailure(username, ip, now);
          return InvalidCredentials;
        }
        ClearFailures(username, ip);
        return Success;
      }
      if f.sso {
        if !f.known {
          RecordFailure(username, ip, now);
          return InvalidCredentials;
        }
        if !f.ssoOk {
          RecordFailure(username, ip, now);
          return ProviderError;
        }
        ClearFailures(username, ip);
        return Success;
      }
      if !f.known {
        RecordFailure(username, ip, now);
        return UserNotFound;
      }
      if !f.passwordOk {
        RecordFailure(username, ip, now);
        return InvalidCredentials;
      }
      ClearFailures(username, ip);
      return Success;
    }

    method CleanupExpiredLocks(now: nat)
      modifies this
      ensures View() == Cleanup(old(View()), now)
    {
      failuresByUsername := PurgeTable(failuresByUsername, now);
      failuresByIP := PurgeTable(failuresByIP, now);
    }

    static method PurgeTable(table: map<string, Record>, now: nat) returns (kept: map<string, Record>)
      ensures kept == Purge(table, now)
    {
      kept := table;
      var keys := table.Keys;
      while keys != {}
        invariant keys <= kept.Keys
        invariant kept == map k | k in table && (k in keys || !Expired(table[k], now)) :: table[k]
      {
        var k :| k in keys;
        keys := keys - {k};
        if now - kept[k].last > Window && now > kept[k].lockedUntil {
          kept := kept - {k};
        }
      }
    }
  }
}
