/**
 The failed-login limiter of auth.go. Times are nanoseconds; `lastFail` and the clock readings share one time line.
 */
module LoginLimiter {
  import opened Clock

  datatype Attempt = Attempt(count: int, lastFail: int)
  datatype Config = Config(maxAttempts: int, lockoutMinutes: int)

  type Attempts = map<string, Attempt>

  function Lockout(c: Config): int {
    (if c.lockoutMinutes <= 0 then 15 else c.lockoutMinutes) * MINUTE
  }

  predicate Expired(c: Config, a: Attempt, now: int) {
    now - a.lastFail > Lockout(c)
  }

  datatype Verdict = Verdict(blocked: bool, remaining: int)

  function CheckVerdict(c: Config, m: Attempts, ip: string, now: int): Verdict {
    if c.maxAttempts <= 0 then Verdict(false, 0)
    else if ip !in m || Expired(c, m[ip], now) then Verdict(false, c.maxAttempts)
    else if m[ip].count >= c.maxAttempts then Verdict(true, 0)
    else Verdict(false, c.maxAttempts - m[ip].count)
  }

  /** A check also forgets an address whose lockout period has passed. */
  function AfterCheck(c: Config, m: Attempts, ip: string, now: int): Attempts {
    if c.maxAttempts > 0 && ip in m && Expired(c, m[ip], now) then m - {ip} else m
  }

  function AfterFailure(m: Attempts, ip: string, now: int): Attempts {
    m[ip := Attempt(if ip in m then m[ip].count + 1 else 1, now)]
  }

  class LoginAttempt {
    var count: int
    var lastFail: int

    constructor (count: int, lastFail: int)
      ensures this.count == count && this.lastFail == lastFail
    {
      this.count, this.lastFail := count, lastFail;
    }
  }

  /** The package-level map of pointers, updated in place under `loginMu`. */
  class Limiter {
    const config: Config
    var attempts: map<string, LoginAttempt>

    /** No two addresses share a record. */
    ghost predicate Valid()
      reads this
    {
      forall a, b :: a in attempts && b in attempts && a != b ==> attempts[a] != attempts[b]
    }

    ghost function Contents(): Attempts
      reads this, attempts.Values
    {
      map ip | ip in attempts :: Attempt(attempts[ip].count, attempts[ip].lastFail)
    }

    constructor (config: Config)
      ensures Valid() && Contents() == map[] && this.config == config
    {
      this.config, attempts := config, map[];
    }

    method CheckRateLimit(ip: string, now: int) returns (blocked: bool, remaining: int)
      requires Valid()
      modifies this
      ensures Valid() && attempts.Values <= old(attempts.Values)
      ensures Verdict(blocked, remaining) == CheckVerdict(config, old(Contents()), ip, now)
      ensures Contents() == AfterCheck(config, old(Contents()), ip, now)
    {
      if config.maxAttempts <= 0 {
        return false, 0;
      }
      var lockoutMin := config.lockoutMinutes;
      if lockoutMin <= 0 {
        lockoutMin := 15;
      }
      if ip !in attempts {
        return false, config.maxAttempts;
      }
      var attempt := attempts[ip];
      if now - attempt.lastFail > lockoutMin * MINUTE {
        attempts := attempts - {ip};
        return false, config.maxAttempts;
      }
      if attempt.count >= config.maxAttempts {
        return true, 0;
      }
      return false, config.maxAttempts - attempt.count;
    }

    method RecordFailure(ip: string, now: int)
      requires Valid()
      modifies this, attempts.Values
      ensures Valid() && fresh(attempts.Values - old(attempts.Values))
      ensures Contents() == AfterFailure(old(Contents()), ip, now)
    {
      if ip !in attempts {
        var attempt := new LoginAttempt(1, now);
        attempts := attempts[ip := attempt];
        return;
      }
      var attempt := attempts[ip];
      attempt.count := attempt.count + 1;
      attempt.lastFail := now;
    }

    method ClearAttempts(ip: string)
      requires Valid()
      modifies this
      ensures Valid() && attempts.Values <= old(attempts.Values)
      ensures Contents() == old(Contents()) - {ip}
    {
      attempts := attempts - {ip};
    }

    /** The POST path of loginHandler, run without interference; the clock is read at each access to the map. */
    method Post(p: Login) returns (outcome: Outcome)
      requires Valid()
      modifies this, attempts.Values
      ensures Valid() && fresh(attempts.Values - old(attempts.Values))
      ensures (Contents(), outcome) == Handle(config, old(Contents()), p)
    {
      var blocked, _ := CheckRateLimit(p.ip, p.checkedAt);
      if blocked {
        return Blocked;
      }
      if p.credentialsMatch {
        ClearAttempts(p.ip);
        return Accepted;
      }
      RecordFailure(p.ip, p.recordedAt);
      var _, remaining := CheckRateLimit(p.ip, p.reportedAt);
      return Failed(remaining);
    }
  }

  /** One POST request: its address, whether the credentials are right, and the clock at its three map accesses. */
  datatype Login = Login(ip: string, credentialsMatch: bool, checkedAt: int, recordedAt: int, reportedAt: int)

  datatype Outcome = Blocked | Accepted | Failed(remaining: int)

  function Handle(c: Config, m: Attempts, p: Login): (Attempts, Outcome) {
    var m1 := AfterCheck(c, m, p.ip, p.checkedAt);
    if CheckVerdict(c, m, p.ip, p.checkedAt).blocked then (m1, Blocked)
    else if p.credentialsMatch then (m1 - {p.ip}, Accepted)
    else
      var m2 := AfterFailure(m1, p.ip, p.recordedAt);
      (AfterCheck(c, m2, p.ip, p.reportedAt), Failed(CheckVerdict(c, m2, p.ip, p.reportedAt).remaining))
  }
}
