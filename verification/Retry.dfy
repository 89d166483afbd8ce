/** The retry schedule of the outbound queue (src/queue.rs). */
module Retry {
  import opened Arith

  const MAX_AGE: nat := 86400
  const BACKOFF: seq<nat> := [60, 300, 900, 3600, 14400]

  function BackoffSecs(retryCount: nat): (d: nat)
    ensures 60 <= d <= 14400
  {
    if retryCount < |BACKOFF| then BACKOFF[retryCount] else 14400
  }

  /** One, five and fifteen minutes, an hour, and four hours for good: the waits never get shorter. */
  lemma Waits(n: nat, m: nat)
    ensures BackoffSecs(0) == 60 && BackoffSecs(1) == 300 && BackoffSecs(2) == 900 && BackoffSecs(3) == 3600
    ensures n >= 4 ==> BackoffSecs(n) == 14400
    ensures n <= m ==> BackoffSecs(n) <= BackoffSecs(m)
  {
  }

  /** What the scheduler keeps of a message. */
  datatype Schedule = Schedule(retryCount: nat, nextAttempt: nat, created: nat)

  datatype Decision = Skip | Expire | Attempt

  /** What a scan at a given clock does with a message. */
  function Decide(s: Schedule, now: nat): Decision {
    if s.nextAttempt > now then Skip
    else if SaturatingSub(now, s.created) >= MAX_AGE then Expire
    else Attempt
  }

  /** After a temporary failure: the new schedule, unless the message is given up. */
  function AfterTempFail(s: Schedule, now: nat): Schedule {
    Schedule(s.retryCount + 1, now + BackoffSecs(s.retryCount), s.created)
  }

  predicate GivesUp(s: Schedule, now: nat) {
    SaturatingSub(now + BackoffSecs(s.retryCount), s.created) >= MAX_AGE || SaturatingSub(now, s.created) >= MAX_AGE
  }

  /** Seconds the first n retries have to wait, whatever the clock does. */
  function Spent(n: nat): nat {
    if n == 0 then 0 else Spent(n - 1) + BackoffSecs(n - 1)
  }

  /** The invariant of every message in the queue. */
  predicate OnSchedule(s: Schedule) {
    Spent(s.retryCount) <= s.nextAttempt - s.created < MAX_AGE
  }

  /** A fresh message is on schedule, and a retained one stays so, with no assumption on the clock. */
  lemma ScheduleKept(s: Schedule, now: nat)
    ensures s.retryCount == 0 && s.nextAttempt == s.created ==> OnSchedule(s)
    ensures OnSchedule(s) && Decide(s, now) == Attempt && !GivesUp(s, now) ==> OnSchedule(AfterTempFail(s, now))
  {
  }

  lemma SpentValues()
    ensures Spent(5) == 19260 && Spent(9) == 76860 && Spent(10) == 91260
  {
    assert Spent(1) == 60 && Spent(2) == 360 && Spent(3) == 1260 && Spent(4) == 4860;
    assert Spent(5) == 19260 && Spent(6) == 33660 && Spent(7) == 48060 && Spent(8) == 62460;
  }

  lemma {:induction false} SpentMono(m: nat, n: nat)
    requires m <= n
    ensures Spent(m) <= Spent(n)
    decreases n
  {
    if m < n { SpentMono(m, n - 1); }
  }

  /** No message in the queue has been retried more than nine times. */
  lemma AtMostNineRetries(s: Schedule)
    requires OnSchedule(s)
    ensures s.retryCount <= 9
  {
    SpentValues();
    if s.retryCount >= 10 { SpentMono(10, s.retryCount); }
  }

  /** Delivery attempts over a run of scans; each scan has a clock and an answer to an attempt. */
  function Attempts(s: Schedule, scans: seq<(nat, bool)>): nat
    decreases |scans|
  {
    if scans == [] then 0 else
      var (now, tempFails) := scans[0];
      match Decide(s, now)
      case Skip => Attempts(s, scans[1..])
      case Expire => 0
      case Attempt =>
        1 + if tempFails && !GivesUp(s, now) then Attempts(AfterTempFail(s, now), scans[1..]) else 0
  }

  lemma {:induction false} AttemptsBound(s: Schedule, scans: seq<(nat, bool)>)
    requires OnSchedule(s)
    ensures s.retryCount <= 9 && Attempts(s, scans) <= 10 - s.retryCount
    decreases |scans|
  {
    AtMostNineRetries(s);
    if scans == [] {
    } else {
      var (now, tempFails) := scans[0];
      ScheduleKept(s, now);
      match Decide(s, now)
      case Skip => AttemptsBound(s, scans[1..]);
      case Expire =>
      case Attempt =>
        if tempFails && !GivesUp(s, now) { AttemptsBound(AfterTempFail(s, now), scans[1..]); }
    }
  }

  /** No message is ever attempted more than ten times, on any sequence of clocks. */
  lemma AtMostTenAttempts(created: nat, scans: seq<(nat, bool)>)
    ensures Attempts(Schedule(0, created, created), scans) <= 10
  {
    AttemptsBound(Schedule(0, created, created), scans);
  }

  /** Scans at exactly the scheduled times, every attempt failing for now. */
  function OnTime(s: Schedule, n: nat): seq<(nat, bool)>
    decreases n
  {
    if n == 0 then [] else [(s.nextAttempt, true)] + OnTime(AfterTempFail(s, s.nextAttempt), n - 1)
  }

  lemma {:induction false} OnTimeAttempts(s: Schedule, n: nat)
    requires s.nextAttempt == s.created + Spent(s.retryCount) && s.retryCount + n == 10
    ensures Attempts(s, OnTime(s, n)) == n
    decreases n
  {
    SpentValues();
    if n == 0 {
    } else {
      SpentMono(s.retryCount, 9);
      var t := AfterTempFail(s, s.nextAttempt);
      if n > 1 {
        SpentMono(t.retryCount, 9);
        OnTimeAttempts(t, n - 1);
        assert OnTime(s, n)[1..] == OnTime(t, n - 1);
      }
    }
  }

  /** Ten is reached. */
  lemma TenAttemptsReached(created: nat)
    ensures Attempts(Schedule(0, created, created), OnTime(Schedule(0, created, created), 10)) == 10
  {
    OnTimeAttempts(Schedule(0, created, created), 10);
  }
}
