/**
 * The login rate limiter: per client address, a count of failed logins and
 * the time of the last one. Five failures lock the address out until 15
 * minutes have passed since the last failure; a successful login forgets
 * the address.
 */
module RateLimit {

  /** MAX_LOGIN_ATTEMPTS and LOGIN_COOLDOWN (milliseconds) at their defaults. */
  const MaxLoginAttempts: nat := 5
  const LoginCooldown: int := 900000

  /** The record kept for one client address. */
  datatype Attempt = Attempt(count: nat, lastAttempt: int)

  datatype Verdict = Allowed | Refused(minutesLeft: int)

  /** The stored record, or the `{ count: 0, lastAttempt: 0 }` default. */
  function StoredOrFresh(m: map<string, Attempt>, ip: string): Attempt {
    if ip in m then m[ip] else Attempt(0, 0)
  }

  /** `Math.ceil(x / d)` for a positive divisor. */
  function CeilDiv(x: int, d: int): (q: int)
    requires d > 0
    ensures d * (q - 1) < x <= d * q
  {
    if x >= 0 then (x + d - 1) / d else -((-x) / d)
  }

  /** The cooldown has run out when more than LoginCooldown milliseconds
      separate `now` from the last recorded failure. */
  predicate CooledDown(a: Attempt, now: int) {
    now - a.lastAttempt > LoginCooldown
  }

  /** What checkRateLimit answers. */
  function CheckVerdict(m: map<string, Attempt>, ip: string, now: int): (v: Verdict)
    ensures v.Refused? <==>
      ip in m && m[ip].count >= MaxLoginAttempts && !CooledDown(m[ip], now)
    ensures v.Refused? ==>
      60000 * (v.minutesLeft - 1) < LoginCooldown - (now - m[ip].lastAttempt) <= 60000 * v.minutesLeft
  {
    var a := StoredOrFresh(m, ip);
    var count := if CooledDown(a, now) then 0 else a.count;
    if count >= MaxLoginAttempts then Refused(CeilDiv(LoginCooldown - (now - a.lastAttempt), 60000))
    else Allowed
  }

  /** What checkRateLimit leaves in the table: it resets the count of a stored
      record whose cooldown has run out, in place, keeping its time; the
      default record it makes for an unknown address is not stored. */
  function AfterCheck(m: map<string, Attempt>, ip: string, now: int): (r: map<string, Attempt>)
    ensures r.Keys == m.Keys
    ensures forall x :: x in m && x != ip ==> r[x] == m[x]
    ensures ip in m ==> r[ip].lastAttempt == m[ip].lastAttempt
    ensures ip in m ==> r[ip].count == if CooledDown(m[ip], now) then 0 else m[ip].count
  {
    if ip in m && CooledDown(m[ip], now) then m[ip := m[ip].(count := 0)] else m
  }

  /** What recordLoginAttempt leaves in the table: success forgets the
      address, failure counts one more and stamps the time. */
  function AfterAttempt(m: map<string, Attempt>, ip: string, success: bool, now: int): (r: map<string, Attempt>)
    ensures success ==> r == m - {ip}
    ensures !success ==>
      && r.Keys == m.Keys + {ip}
      && r[ip] == Attempt(StoredOrFresh(m, ip).count + 1, now)
      && forall x :: x in m && x != ip ==> r[x] == m[x]
  {
    if success then m - {ip}
    else m[ip := Attempt(StoredOrFresh(m, ip).count + 1, now)]
  }

  /** One login request past input validation, as far as the limiter sees
      it: the rate-limit check, then, unless refused, the record of the outcome. */
  function Round(m: map<string, Attempt>, ip: string, now: int, success: bool): map<string, Attempt> {
    var m1 := AfterCheck(m, ip, now);
    if CheckVerdict(m, ip, now).Refused? then m1 else AfterAttempt(m1, ip, success, now)
  }

  /** Failed logins from one address at the given times, in order. */
  function Failures(m: map<string, Attempt>, ip: string, times: seq<int>): map<string, Attempt> {
    if times == [] then m
    else Round(Failures(m, ip, times[..|times| - 1]), ip, times[|times| - 1], false)
  }

  /** Consecutive times no more than the cooldown apart, and in order. */
  predicate Close(times: seq<int>) {
    forall i :: 0 < i < |times| ==> times[i - 1] <= times[i] <= times[i - 1] + LoginCooldown
  }

  /** Up to MaxLoginAttempts failures from a fresh address, each within the
      cooldown of the one before, are each counted and stamped. */
  lemma {:induction false} FailuresAccumulate(m: map<string, Attempt>, ip: string, times: seq<int>)
    requires ip !in m && Close(times) && |times| <= MaxLoginAttempts
    ensures var r := Failures(m, ip, times);
      times != [] ==> ip in r && r[ip] == Attempt(|times|, times[|times| - 1])
    ensures times == [] ==> ip !in Failures(m, ip, times)
  {
    if times != [] {
      var pre := times[..|times| - 1];
      assert Close(pre);
      FailuresAccumulate(m, ip, pre);
    }
  }

  /** After MaxLoginAttempts close failures the address is refused until
      the cooldown after the last one has run out, and allowed after. */
  lemma LockedOutAfterFailures(m: map<string, Attempt>, ip: string, times: seq<int>, now: int)
    requires ip !in m && Close(times) && |times| == MaxLoginAttempts
    ensures var r := Failures(m, ip, times);
      CheckVerdict(r, ip, now).Refused? <==> now <= times[|times| - 1] + LoginCooldown
  {
    FailuresAccumulate(m, ip, times);
  }

  /** A refused request changes neither the count nor the time, so the
      lockout is not extended by retrying. */
  lemma RefusalKeepsRecord(m: map<string, Attempt>, ip: string, now: int, success: bool)
    requires CheckVerdict(m, ip, now).Refused?
    ensures Round(m, ip, now, success) == m
  {
  }

  /** Within rounds a record never counts more than MaxLoginAttempts. */
  lemma RoundKeepsCountBounded(m: map<string, Attempt>, ip: string, now: int, success: bool)
    requires forall x :: x in m ==> m[x].count <= MaxLoginAttempts
    ensures var r := Round(m, ip, now, success);
      forall x :: x in r ==> r[x].count <= MaxLoginAttempts
  {
  }

  /** Failed logins recorded one after another at `now`, without a check in
      between: what requests that all passed the rate-limit check before the password
      comparison finished record once it does. */
  function RecordFailures(m: map<string, Attempt>, ip: string, now: int, n: nat): map<string, Attempt> {
    if n == 0 then m else AfterAttempt(RecordFailures(m, ip, now, n - 1), ip, false, now)
  }

  /** Requests that overlap across the awaited password comparison all pass
      the rate-limit check while the count is below the limit, since the rate-limit check does
      not count them; each failure then adds one, so the count ends above
      the limit as soon as two of them start from one below it. */
  lemma {:induction false} OverlappingFailuresPassLimit(m: map<string, Attempt>, ip: string, now: int, n: nat)
    requires ip in m && !CooledDown(m[ip], now) && m[ip].count < MaxLoginAttempts
    ensures AfterCheck(m, ip, now) == m && CheckVerdict(m, ip, now) == Allowed
    ensures var r := RecordFailures(m, ip, now, n);
      && ip in r && r[ip] == (if n == 0 then m[ip] else Attempt(m[ip].count + n, now))
      && (m[ip].count == MaxLoginAttempts - 1 && n >= 2 ==> r[ip].count > MaxLoginAttempts)
  {
    if n > 0 {
      OverlappingFailuresPassLimit(m, ip, now, n - 1);
    }
  }

  /** After a successful login the address starts over. */
  lemma SuccessForgets(m: map<string, Attempt>, ip: string, now: int, later: int)
    requires CheckVerdict(m, ip, now) == Allowed
    ensures ip !in Round(m, ip, now, true)
    ensures CheckVerdict(Round(m, ip, now, true), ip, later) == Allowed
  {
  }

  /** While refused, the wait announced is between 0 and 15 minutes. */
  lemma MinutesLeftBounded(m: map<string, Attempt>, ip: string, now: int)
    requires CheckVerdict(m, ip, now).Refused? && m[ip].lastAttempt <= now
    ensures 0 <= CheckVerdict(m, ip, now).minutesLeft <= LoginCooldown / 60000
  {
  }
}
