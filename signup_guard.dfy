/**
 * The silent anti-bot gate in front of registration (src/middleware/tightSignupGuard.ts):
 * a honeypot field that people never see, and the time between rendering the form and
 * submitting it. Every rejection answers the same 429; only the server log tells why.
 */
module SignupGuard {
  import opened Types
  import opened Http
  import opened Validation

  /** Milliseconds: faster than 2 s is too fast for a person, older than 10 min is stale. */
  const MinFillTime: int := 2000
  const MaxFillTime: int := 10 * 60 * 1000

  const GenericRejection: string := "Unable to process signup. Please try again later."

  /** What the guard writes to the server log when it rejects (never sent to the client). */
  datatype BotSignal = HoneypotFilled | TooFast(timeDiff: int) | InvalidTimestamp(timeDiff: int)

  /** Either `next()` is called, or the response is sent and the reason logged. */
  datatype Verdict = Next | Reject(response: Response, logged: BotSignal)

  /** JavaScript truthiness of the optional fields the guard tests. */
  predicate Filled(nickname: Option<string>) {
    nickname.Some? && nickname.value != ""
  }

  predicate HasTimestamp(timestamp: Option<int>) {
    timestamp.Some? && timestamp.value != 0
  }

  /**
   * The guard on the fields `nickname` and `timestamp` of the request body, at time `now`
   * (what `Date.now()` returns). Every rejection carries the same response, and the second
   * timing check (future or stale) can only ever fire for a stale timestamp.
   */
  function Guard(nickname: Option<string>, timestamp: Option<int>, now: int): (v: Verdict)
    ensures v.Reject? ==> v.response == Error(429, GenericRejection)
    ensures v.Reject? && v.logged.InvalidTimestamp? ==> v.logged.timeDiff > MaxFillTime
    ensures v.Reject? && v.logged.TooFast? ==> v.logged.timeDiff < MinFillTime
  {
    if Filled(nickname) && |Trim(nickname.value)| > 0 then
      Reject(Error(429, GenericRejection), HoneypotFilled)
    else if HasTimestamp(timestamp) then
      var timeDiff := now - timestamp.value;
      if timeDiff < MinFillTime then
        Reject(Error(429, GenericRejection), TooFast(timeDiff))
      else if timeDiff < 0 || timeDiff > MaxFillTime then
        Reject(Error(429, GenericRejection), InvalidTimestamp(timeDiff))
      else
        Next
    else
      Next
  }

  /** The honeypot is blank when it is absent or holds nothing but white space. */
  predicate HoneypotBlank(nickname: Option<string>) {
    nickname.None? || AllWhitespace(nickname.value)
  }

  /** The request reaches registration iff the honeypot is blank and the timing is human. */
  lemma GuardPassesIff(nickname: Option<string>, timestamp: Option<int>, now: int)
    ensures Guard(nickname, timestamp, now) == Next <==>
      HoneypotBlank(nickname) &&
      (!HasTimestamp(timestamp) || MinFillTime <= now - timestamp.value <= MaxFillTime)
  {
    if nickname.Some? {
      TrimEmptyIff(nickname.value);
    }
  }

  /** A filled honeypot is rejected whatever the timestamp, and logged as such. */
  lemma HoneypotAlwaysRejected(nickname: string, timestamp: Option<int>, now: int)
    requires !AllWhitespace(nickname)
    ensures Guard(Some(nickname), timestamp, now) == Reject(Error(429, GenericRejection), HoneypotFilled)
  {
    TrimEmptyIff(nickname);
  }

  /**
   * A timestamp in the future (a negative difference) is always caught by the "too fast"
   * check, so the `timeDiff < 0` test of the second check never decides anything.
   */
  lemma FutureTimestampIsTooFast(nickname: Option<string>, timestamp: int, now: int)
    requires HoneypotBlank(nickname) && timestamp != 0 && now < timestamp
    ensures Guard(nickname, Some(timestamp), now) == Reject(Error(429, GenericRejection), TooFast(now - timestamp))
  {
    if nickname.Some? {
      TrimEmptyIff(nickname.value);
    }
  }
}
