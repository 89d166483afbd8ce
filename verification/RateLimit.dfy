/** Sliding windows: brute-force lockout per address, outbound recipients per user. */
module RateLimit {
  import opened Arith

  const MAX_U64: nat := 0xFFFF_FFFF_FFFF_FFFF
  const OUTBOUND_WINDOW: nat := 3600

  datatype Limits = Limits(maxFailures: nat, windowSecs: nat, lockoutSecs: nat)

  /** What configure_auth lets through. */
  predicate Configured(l: Limits) {
    1 <= l.maxFailures < 0x1_0000_0000 && 1 <= l.windowSecs && 1 <= l.lockoutSecs
  }

  function SaturatingAdd(a: nat, b: nat): nat {
    if a + b > MAX_U64 then MAX_U64 else a + b
  }

  // ----- windows over lists of times -----

  /** retain(|t| t >= start). */
  function Recent(times: seq<nat>, start: nat): (r: seq<nat>)
    ensures |r| <= |times|
  {
    if times == [] then []
    else (if times[0] >= start then [times[0]] else []) + Recent(times[1..], start)
  }

  /** A window keeps exactly the times from its start on. */
  lemma {:induction false} RecentMeans(times: seq<nat>, start: nat, t: nat)
    ensures multiset(Recent(times, start))[t] == if t >= start then multiset(times)[t] else 0
    decreases |times|
  {
    if times == [] {
    } else {
      RecentMeans(times[1..], start, t);
      assert times == [times[0]] + times[1..];
    }
  }

  lemma RecentStep(times: seq<nat>, start: nat)
    requires times != []
    ensures Recent(times, start) == (if times[0] >= start then [times[0]] else []) + Recent(times[1..], start)
  {
  }

  lemma {:induction false} RecentJoin(a: seq<nat>, b: seq<nat>, start: nat)
    ensures Recent(a + b, start) == Recent(a, start) + Recent(b, start)
    decreases |a|
  {
    hide Recent;
    if a == [] {
      assert a + b == b;
      RecentNone(start);
    } else {
      RecentStep(a + b, start);
      RecentStep(a, start);
      assert (a + b)[1..] == a[1..] + b;
      RecentJoin(a[1..], b, start);
      var head := if a[0] >= start then [a[0]] else [];
      assert head + (Recent(a[1..], start) + Recent(b, start)) == (head + Recent(a[1..], start)) + Recent(b, start);
    }
  }

  lemma RecentNone(start: nat)
    ensures Recent([], start) == []
  {
  }

  /** Narrowing a window that was already narrowed. */
  lemma {:induction false} RecentTwice(a: seq<nat>, low: nat, high: nat)
    requires low <= high
    ensures Recent(Recent(a, low), high) == Recent(a, high)
    decreases |a|
  {
    if a == [] {
    } else {
      RecentTwice(a[1..], low, high);
      var head := if a[0] >= low then [a[0]] else [];
      RecentJoin(head, Recent(a[1..], low), high);
    }
  }

  // ----- the history nobody prunes -----

  datatype Event = Failure(ip: string, at: nat) | Success(ip: string, at: nat) | Check(ip: string, at: nat)

  /** One address as a history keeps it: every failure since the last success or lockout, and the last lockout's end. */
  datatype Record = Record(failures: seq<nat>, lockoutUntil: nat)

  const CLEAN := Record([], 0)

  function Failed(l: Limits, r: Record, now: nat): Record {
    var failures := r.failures + [now];
    if |Recent(failures, SaturatingSub(now, l.windowSecs))| >= l.maxFailures
    then Record([], SaturatingAdd(now, l.lockoutSecs))
    else r.(failures := failures)
  }

  function After(l: Limits, r: Record, e: Event, ip: string): Record {
    if e.ip != ip || e.Check? then r else if e.Failure? then Failed(l, r, e.at) else CLEAN
  }

  function Unpruned(l: Limits, history: seq<Event>, ip: string): Record
    decreases |history|
  {
    if history == [] then CLEAN
    else After(l, Unpruned(l, history[..|history| - 1], ip), history[|history| - 1], ip)
  }

  lemma UnprunedStep(l: Limits, history: seq<Event>, e: Event, ip: string)
    ensures Unpruned(l, history + [e], ip) == After(l, Unpruned(l, history, ip), e, ip)
  {
    assert (history + [e])[..|history|] == history;
  }

  /** The answer the whole history calls for. */
  predicate Allowed(l: Limits, history: seq<Event>, ip: string, now: nat) {
    Unpruned(l, history, ip).lockoutUntil <= now
  }

  function FailuresOf(history: seq<Event>, ip: string): seq<nat>
    decreases |history|
  {
    if history == [] then []
    else
      var last := history[|history| - 1];
      FailuresOf(history[..|history| - 1], ip) + if last.Failure? && last.ip == ip then [last.at] else []
  }

  lemma {:induction false} UnprunedAreFailures(l: Limits, history: seq<Event>, ip: string, start: nat)
    ensures |Recent(Unpruned(l, history, ip).failures, start)| <= |Recent(FailuresOf(history, ip), start)|
    decreases |history|
  {
    if history == [] {
    } else {
      var before, last := history[..|history| - 1], history[|history| - 1];
      UnprunedAreFailures(l, before, ip, start);
      if last.Failure? && last.ip == ip {
        RecentJoin(FailuresOf(before, ip), [last.at], start);
        RecentJoin(Unpruned(l, before, ip).failures, [last.at], start);
      } else {
        assert FailuresOf(before, ip) + [] == FailuresOf(before, ip);
      }
    }
  }

  /** Event k locked the address out: it is the last of too many failures in its window, and no success followed. */
  ghost predicate Caused(l: Limits, history: seq<Event>, ip: string, k: nat)
    requires k < |history|
  {
    && history[k].Failure? && history[k].ip == ip
    && |Recent(FailuresOf(history[..k + 1], ip), SaturatingSub(history[k].at, l.windowSecs))| >= l.maxFailures
    && forall j :: k < j < |history| ==> !(history[j].Success? && history[j].ip == ip)
  }

  lemma FailuresStep(history: seq<Event>, e: Event, ip: string)
    ensures FailuresOf(history + [e], ip) == FailuresOf(history, ip) + if e.Failure? && e.ip == ip then [e.at] else []
  {
    assert (history + [e])[..|history|] == history;
  }

  lemma CausedLater(l: Limits, history: seq<Event>, e: Event, ip: string, k: nat)
    requires k < |history| && Caused(l, history, ip, k) && !(e.Success? && e.ip == ip)
    ensures Caused(l, history + [e], ip, k)
  {
    hide Recent, FailuresOf;
    assert (history + [e])[..k + 1] == history[..k + 1];
  }

  /** The failure that locks out is its own cause. */
  lemma CausedNow(l: Limits, history: seq<Event>, e: Event, ip: string)
    requires e.Failure? && e.ip == ip
    requires |Recent(Unpruned(l, history, ip).failures + [e.at], SaturatingSub(e.at, l.windowSecs))| >= l.maxFailures
    ensures Caused(l, history + [e], ip, |history|)
  {
    var start := SaturatingSub(e.at, l.windowSecs);
    UnprunedAreFailures(l, history, ip, start);
    FailuresStep(history, e, ip);
    hide Unpruned, FailuresOf, Recent;
    RecentJoin(Unpruned(l, history, ip).failures, [e.at], start);
    RecentJoin(FailuresOf(history, ip), [e.at], start);
    assert (history + [e])[..|history| + 1] == history + [e];
  }

  /** Some failure caused a lockout that still runs. */
  ghost predicate HasCause(l: Limits, history: seq<Event>, ip: string, now: nat) {
    exists k | 0 <= k < |history| ::
      Caused(l, history, ip, k) && now < SaturatingAdd(history[k].at, l.lockoutSecs)
  }

  lemma CauseExtends(l: Limits, history: seq<Event>, e: Event, ip: string, now: nat)
    requires HasCause(l, history, ip, now) && !(e.Success? && e.ip == ip)
    ensures HasCause(l, history + [e], ip, now)
  {
    hide Caused, SaturatingAdd;
    var k :| 0 <= k < |history| && Caused(l, history, ip, k) && now < SaturatingAdd(history[k].at, l.lockoutSecs);
    CausedLater(l, history, e, ip, k);
    assert (history + [e])[k] == history[k];
  }

  lemma CauseStarts(l: Limits, history: seq<Event>, e: Event, ip: string, now: nat)
    requires Caused(l, history + [e], ip, |history|) && now < SaturatingAdd(e.at, l.lockoutSecs)
    ensures HasCause(l, history + [e], ip, now)
  {
    hide Caused, SaturatingAdd;
    assert (history + [e])[|history|] == e;
  }

  /** What one event does to a lockout. */
  lemma LockoutStep(l: Limits, r: Record, e: Event, ip: string, now: nat)
    requires After(l, r, e, ip).lockoutUntil > now
    ensures !(e.Success? && e.ip == ip)
    ensures r.lockoutUntil > now
            || (e.Failure? && e.ip == ip && now < SaturatingAdd(e.at, l.lockoutSecs)
                && |Recent(r.failures + [e.at], SaturatingSub(e.at, l.windowSecs))| >= l.maxFailures)
  {
    hide Recent;
  }

  lemma NothingLocked(l: Limits, ip: string)
    ensures Unpruned(l, [], ip).lockoutUntil == 0
  {
  }

  /** Nobody is locked out without cause. */
  lemma {:induction false} LockoutHasCause(l: Limits, history: seq<Event>, ip: string, now: nat)
    requires !Allowed(l, history, ip, now)
    ensures HasCause(l, history, ip, now)
    decreases |history|
  {
    hide Unpruned, Recent, HasCause, Caused, SaturatingSub, SaturatingAdd, After;
    NothingLocked(l, ip);
    var before, last := history[..|history| - 1], history[|history| - 1];
    assert history == before + [last];
    UnprunedStep(l, before, last, ip);
    LockoutStep(l, Unpruned(l, before, ip), last, ip, now);
    if Unpruned(l, before, ip).lockoutUntil > now {
      LockoutHasCause(l, before, ip, now);
      CauseExtends(l, before, last, ip, now);
    } else {
      CausedNow(l, before, last, ip);
      CauseStarts(l, before, last, ip, now);
    }
  }

  function Burst(ip: string, times: seq<nat>): seq<Event>
    decreases |times|
  {
    if times == [] then [] else Burst(ip, times[..|times| - 1]) + [Failure(ip, times[|times| - 1])]
  }

  lemma {:induction false} RecentAll(times: seq<nat>, start: nat)
    requires forall i :: 0 <= i < |times| ==> times[i] >= start
    ensures Recent(times, start) == times
    decreases |times|
  {
    if times == [] {
    } else {
      RecentAll(times[1..], start);
    }
  }

  /** The failure at times[i] starts a lockout. */
  ghost predicate LocksAt(l: Limits, history: seq<Event>, ip: string, times: seq<nat>, i: nat)
    requires i < |times|
  {
    Unpruned(l, history + Burst(ip, times[..i + 1]), ip) == Record([], SaturatingAdd(times[i], l.lockoutSecs))
  }

  lemma BurstStep(l: Limits, history: seq<Event>, ip: string, most: seq<nat>, last: nat)
    ensures Unpruned(l, history + Burst(ip, most + [last]), ip)
         == Failed(l, Unpruned(l, history + Burst(ip, most), ip), last)
  {
    assert (most + [last])[..|most|] == most;
    assert history + Burst(ip, most + [last]) == (history + Burst(ip, most)) + [Failure(ip, last)];
    UnprunedStep(l, history + Burst(ip, most), Failure(ip, last), ip);
  }

  /** Until a lockout starts, every failure of the burst is kept. */
  lemma {:induction false} BurstGrows(l: Limits, history: seq<Event>, ip: string, times: seq<nat>)
    requires forall i :: 0 <= i < |times| ==> !LocksAt(l, history, ip, times, i)
    ensures var f := Unpruned(l, history + Burst(ip, times), ip).failures;
            |times| <= |f| && f[|f| - |times|..] == times
    decreases |times|
  {
    hide Unpruned, Burst, Recent;
    if times == [] {
    } else {
      var most, last := times[..|times| - 1], times[|times| - 1];
      assert times == most + [last];
      forall i | 0 <= i < |most| ensures !LocksAt(l, history, ip, most, i) {
        assert !LocksAt(l, history, ip, times, i);
        assert most[..i + 1] == times[..i + 1];
      }
      BurstGrows(l, history, ip, most);
      BurstStep(l, history, ip, most, last);
      assert !LocksAt(l, history, ip, times, |most|);
      assert times[..|times|] == times;
    }
  }

  /** As many failures as the limit, all within one window, never go without a lockout. */
  lemma BurstLocks(l: Limits, history: seq<Event>, ip: string, times: seq<nat>)
    requires Configured(l) && |times| == l.maxFailures
    requires forall i :: 0 <= i < |times| ==> SaturatingSub(times[|times| - 1], l.windowSecs) <= times[i]
    ensures exists i | 0 <= i < |times| :: LocksAt(l, history, ip, times, i)
  {
    hide Unpruned, Burst, Recent;
    if forall i :: 0 <= i < |times| ==> !LocksAt(l, history, ip, times, i) {
      var most, last := times[..|times| - 1], times[|times| - 1];
      forall i | 0 <= i < |most| ensures !LocksAt(l, history, ip, most, i) {
        assert !LocksAt(l, history, ip, times, i);
        assert most[..i + 1] == times[..i + 1];
      }
      BurstGrows(l, history, ip, most);
      BurstStep(l, history, ip, most, last);
      assert times == most + [last];
      var r := Unpruned(l, history + Burst(ip, most), ip);
      var earlier, start := r.failures[..|r.failures| - |most|], SaturatingSub(last, l.windowSecs);
      assert r.failures + [last] == earlier + times;
      RecentJoin(earlier, times, start);
      RecentAll(times, start);
      assert times[..|times|] == times;
      assert LocksAt(l, history, ip, times, |most|);
    }
  }

  // ----- lockouts, by the events alone -----

  /** The events of one address. */
  function Own(history: seq<Event>, ip: string): seq<Event>
    decreases |history|
  {
    if history == [] then []
    else
      var last := history[|history| - 1];
      Own(history[..|history| - 1], ip) + if last.ip == ip then [last] else []
  }

  /** What is kept of an address depends on its own events only. */
  lemma {:induction false} OwnEventsDecide(l: Limits, history: seq<Event>, ip: string)
    ensures Unpruned(l, history, ip) == Unpruned(l, Own(history, ip), ip)
    decreases |history|
  {
    hide Failed;
    if history == [] {
    } else {
      var before, last := history[..|history| - 1], history[|history| - 1];
      OwnEventsDecide(l, before, ip);
      if last.ip == ip {
        UnprunedStep(l, Own(before, ip), last, ip);
      } else {
        assert Own(before, ip) + [] == Own(before, ip);
      }
    }
  }

  /** Two histories that agree on an address get the same answers for it, whatever the others did. */
  lemma OthersDoNotMatter(l: Limits, h1: seq<Event>, h2: seq<Event>, ip: string, now: nat)
    requires Own(h1, ip) == Own(h2, ip)
    ensures Allowed(l, h1, ip, now) <==> Allowed(l, h2, ip, now)
  {
    OwnEventsDecide(l, h1, ip);
    OwnEventsDecide(l, h2, ip);
  }

  predicate SuccessOf(e: Event, ip: string) {
    e.Success? && e.ip == ip
  }

  /** The last event is a failure of the address and, with its other failures since its last success or lockout, fills
      a window. */
  predicate LocksOut(l: Limits, history: seq<Event>, ip: string)
    decreases |history|, 1
  {
    history != []
    && var before, last := history[..|history| - 1], history[|history| - 1];
       last.Failure? && last.ip == ip
       && |Recent(FailuresOf(SinceReset(l, before, ip) + [last], ip), SaturatingSub(last.at, l.windowSecs))|
             >= l.maxFailures
  }

  /** The events since the address last succeeded or was locked out. */
  function SinceReset(l: Limits, history: seq<Event>, ip: string): seq<Event>
    decreases |history|, 2
  {
    if history == [] || SuccessOf(history[|history| - 1], ip) || LocksOut(l, history, ip) then []
    else SinceReset(l, history[..|history| - 1], ip) + [history[|history| - 1]]
  }

  /** Some failure locked the address out, its lockout has not run out, and no success of the address followed. */
  ghost predicate LockedOut(l: Limits, history: seq<Event>, ip: string, now: nat) {
    exists k | 0 <= k < |history| :: LockedBy(l, history, ip, now, k)
  }

  ghost predicate LockedBy(l: Limits, history: seq<Event>, ip: string, now: nat, k: nat)
    requires k < |history|
  {
    LocksOut(l, history[..k + 1], ip) && now < SaturatingAdd(history[k].at, l.lockoutSecs)
    && forall j :: k < j < |history| ==> !SuccessOf(history[j], ip)
  }

  predicate Ordered(history: seq<Event>) {
    forall i, j :: 0 <= i <= j < |history| ==> history[i].at <= history[j].at
  }

  /** Recorded in order, up to a clock. */
  predicate OrderedUpTo(history: seq<Event>, clock: nat) {
    Ordered(history) && forall i :: 0 <= i < |history| ==> history[i].at <= clock
  }

  lemma OrderedLater(history: seq<Event>, clock: nat, now: nat)
    requires OrderedUpTo(history, clock) && clock <= now
    ensures OrderedUpTo(history, now) && Ordered(history)
    ensures forall e: Event :: e.at == now ==> OrderedUpTo(history + [e], now)
  {
  }

  lemma {:induction false} KeptAreSinceReset(l: Limits, history: seq<Event>, ip: string)
    ensures Unpruned(l, history, ip).failures == FailuresOf(SinceReset(l, history, ip), ip)
    decreases |history|
  {
    hide Recent, Unpruned, SinceReset;
    if history == [] {
      assert SinceReset(l, [], ip) == [] && Unpruned(l, [], ip) == CLEAN by { NothingKept(l, ip); }
    } else {
      var before, last := history[..|history| - 1], history[|history| - 1];
      KeptAreSinceReset(l, before, ip);
      assert history == before + [last];
      UnprunedStep(l, before, last, ip);
      FailuresStep(SinceReset(l, before, ip), last, ip);
      ResetStep(l, history, ip);
      var f := Unpruned(l, before, ip).failures;
      assert f + [] == f;
    }
  }

  lemma NothingKept(l: Limits, ip: string)
    ensures SinceReset(l, [], ip) == [] && Unpruned(l, [], ip) == CLEAN
  {
  }

  lemma ResetStep(l: Limits, history: seq<Event>, ip: string)
    requires history != []
    ensures SinceReset(l, history, ip)
         == if SuccessOf(history[|history| - 1], ip) || LocksOut(l, history, ip) then []
            else SinceReset(l, history[..|history| - 1], ip) + [history[|history| - 1]]
  {
    hide LocksOut;
  }

  /** A lockout lasts: with a clock that does not go back, an address is refused exactly while it is locked out. */
  lemma {:induction false} RefusedExactlyWhileLocked(l: Limits, history: seq<Event>, ip: string, now: nat)
    requires Ordered(history)
    ensures !Allowed(l, history, ip, now) <==> LockedOut(l, history, ip, now)
    decreases |history|
  {
    hide Recent, Unpruned, LocksOut, SaturatingAdd;
    if history == [] {
      NothingKept(l, ip);
    } else {
      var n := |history| - 1;
      var before, last := history[..n], history[n];
      assert history == before + [last];
      RefusedExactlyWhileLocked(l, before, ip, now);
      UnprunedStep(l, before, last, ip);
      LocksOutIs(l, before, last, ip);
      LockedStep(l, before, last, ip, now);
    }
  }

  lemma LocksOutIs(l: Limits, before: seq<Event>, last: Event, ip: string)
    ensures LocksOut(l, before + [last], ip)
       <==> last.Failure? && last.ip == ip
            && |Recent(Unpruned(l, before, ip).failures + [last.at], SaturatingSub(last.at, l.windowSecs))|
             >= l.maxFailures
  {
    hide Recent, Unpruned, SinceReset;
    KeptAreSinceReset(l, before, ip);
    FailuresStep(SinceReset(l, before, ip), last, ip);
    assert (before + [last])[..|before|] == before;
  }

  lemma LockedStep(l: Limits, before: seq<Event>, last: Event, ip: string, now: nat)
    requires Ordered(before + [last])
    ensures LockedOut(l, before + [last], ip, now)
       <==> if LocksOut(l, before + [last], ip) then now < SaturatingAdd(last.at, l.lockoutSecs)
            else !SuccessOf(last, ip) && LockedOut(l, before, ip, now)
  {
    hide LocksOut;
    var n := |before|;
    var history := before + [last];
    assert history[..n + 1] == history && history[n] == last;
    forall k | 0 <= k < n
      ensures LockedBy(l, history, ip, now, k) <==> LockedBy(l, before, ip, now, k) && !SuccessOf(last, ip)
      ensures LockedBy(l, history, ip, now, k) ==> now < SaturatingAdd(last.at, l.lockoutSecs)
    {
      assert history[..k + 1] == before[..k + 1] && history[k].at <= history[n].at;
      if LockedBy(l, before, ip, now, k) && !SuccessOf(last, ip) {
        forall j | k < j < |history| ensures !SuccessOf(history[j], ip) {
          assert j < n ==> history[j] == before[j];
        }
      }
      if LockedBy(l, history, ip, now, k) {
        assert !SuccessOf(history[n], ip);
        forall j | k < j < n ensures !SuccessOf(before[j], ip) {
          assert before[j] == history[j];
        }
      }
    }
    assert LockedBy(l, history, ip, now, n)
      <==> LocksOut(l, history, ip) && now < SaturatingAdd(last.at, l.lockoutSecs);
    if LockedOut(l, before, ip, now) && !SuccessOf(last, ip) {
      var k :| 0 <= k < |before| && LockedBy(l, before, ip, now, k);
      assert LockedBy(l, history, ip, now, k);
    }
  }

  /** A failure during a lockout counts towards the next one only: four failures within a window of three start one
      lockout, at the third, and it ends by the third. */
  lemma LaterFailureExtendsNothing(ip: string)
    ensures var l := Limits(3, 300, 900);
            var h := [Failure(ip, 1), Failure(ip, 2), Failure(ip, 3), Failure(ip, 4)];
            !Allowed(l, h, ip, 902) && Allowed(l, h, ip, 903)
  {
    hide Unpruned, Recent, LocksOut;
    var l := Limits(3, 300, 900);
    var a, b, c, d := Failure(ip, 1), Failure(ip, 2), Failure(ip, 3), Failure(ip, 4);
    UnprunedStep(l, [], a, ip);
    UnprunedStep(l, [a], b, ip);
    UnprunedStep(l, [a, b], c, ip);
    UnprunedStep(l, [a, b, c], d, ip);
    assert [] + [a] == [a] && [a] + [b] == [a, b] && [a, b] + [c] == [a, b, c] && [a, b, c] + [d] == [a, b, c, d];
    NothingKept(l, ip);
    RecentAll([1], 0);
    RecentAll([1, 2], 0);
    RecentAll([1, 2, 3], 0);
    RecentAll([4], 0);
    assert [] + [1] == [1] && [1] + [2] == [1, 2] && [1, 2] + [3] == [1, 2, 3] && [] + [4] == [4];
  }

  // ----- the tracker -----

  /** A stored entry and the unpruned record agree on everything a later call can see. */
  ghost predicate Agrees(l: Limits, stored: Record, full: Record, now: nat) {
    && (stored.lockoutUntil == full.lockoutUntil || (stored.lockoutUntil <= now && full.lockoutUntil <= now))
    && (forall start: nat :: start >= SaturatingSub(now, l.windowSecs) ==>
          Recent(stored.failures, start) == Recent(full.failures, start))
    && |stored.failures| < l.maxFailures
  }

  /** Later, the two still agree. */
  lemma AgreesLater(l: Limits, stored: Record, full: Record, now: nat, later: nat)
    requires Agrees(l, stored, full, now) && now <= later
    ensures Agrees(l, stored, full, later)
  {
    hide Recent;
  }

  predicate Kept(l: Limits, r: Record, now: nat) {
    r.lockoutUntil > now || Recent(r.failures, SaturatingSub(now, l.windowSecs)) != []
  }

  function Trimmed(l: Limits, r: Record, now: nat): Record {
    if r.lockoutUntil > now then r else r.(failures := Recent(r.failures, SaturatingSub(now, l.windowSecs)))
  }

  /** Trimming an entry, or dropping an empty one, keeps the agreement. */
  lemma PruneAgrees(l: Limits, stored: Record, full: Record, now: nat)
    requires Agrees(l, stored, full, now) && Configured(l)
    ensures Agrees(l, if Kept(l, stored, now) then Trimmed(l, stored, now) else CLEAN, full, now)
  {
    var low := SaturatingSub(now, l.windowSecs);
    forall start: nat | start >= low
      ensures Recent(Recent(stored.failures, low), start) == Recent(stored.failures, start)
    {
      RecentTwice(stored.failures, low, start);
    }
  }

  /** A failure recorded on agreeing records locks both out, or neither. */
  lemma FailureAgrees(l: Limits, stored: Record, full: Record, now: nat)
    requires Agrees(l, stored, full, now) && Configured(l)
    ensures var kept := Recent(stored.failures, SaturatingSub(now, l.windowSecs)) + [now];
            |kept| <= l.maxFailures
            && Agrees(l, if |kept| >= l.maxFailures then Record([], SaturatingAdd(now, l.lockoutSecs))
                      else stored.(failures := kept), Failed(l, full, now), now)
  {
    var low := SaturatingSub(now, l.windowSecs);
    var kept := Recent(stored.failures, low) + [now];
    forall start: nat | start >= low
      ensures Recent(kept, start) == Recent(full.failures + [now], start)
    {
      RecentJoin(Recent(stored.failures, low), [now], start);
      RecentJoin(full.failures, [now], start);
      RecentTwice(stored.failures, low, start);
    }
    RecentJoin(full.failures, [now], low);
    assert Recent([now], low) == [now];
    assert kept == Recent(full.failures + [now], low);
  }

  lemma CleanAgrees(l: Limits, now: nat)
    requires Configured(l)
    ensures Agrees(l, CLEAN, CLEAN, now)
  {
  }

  /** Retain, push and, at the limit, lock out and clear; the length is compared as a u32. */
  method PushFailure(l: Limits, st: Record, now: nat, ghost full: Record) returns (r: Record)
    requires Agrees(l, st, full, now) && Configured(l)
    ensures Agrees(l, r, Failed(l, full, now), now)
  {
    FailureAgrees(l, st, full, now);
    hide Agrees, Failed, Recent;
    var failures := Recent(st.failures, SaturatingSub(now, l.windowSecs)) + [now];
    if |failures| % 0x1_0000_0000 >= l.maxFailures {
      return Record([], SaturatingAdd(now, l.lockoutSecs));
    }
    return Record(failures, st.lockoutUntil);
  }

  class AuthTracker {
    var entries: map<string, Record>
    const limits: Limits
    ghost var history: seq<Event>
    ghost var clock: nat

    ghost function Entry(ip: string): Record
      reads this
    {
      if ip in entries then entries[ip] else CLEAN
    }

    ghost predicate Valid()
      reads this
    {
      Configured(limits) && OrderedUpTo(history, clock)
      && forall ip :: Agrees(limits, Entry(ip), Unpruned(limits, history, ip), clock)
    }

    constructor (limits: Limits)
      requires Configured(limits)
      ensures Valid() && history == [] && clock == 0 && this.limits == limits
    {
      this.limits := limits;
      entries, history, clock := map[], [], 0;
    }

    /** Drops what no longer matters at this time; no later answer changes. */
    method PruneAuth(now: nat)
      requires Valid() && clock <= now
      modifies this`entries, this`clock
      ensures Valid() && clock == now
      ensures entries == map ip | ip in old(entries) && Kept(limits, old(entries)[ip], now)
                             :: Trimmed(limits, old(entries)[ip], now)
    {
      hide Ordered, OrderedUpTo;
      OrderedLater(history, clock, now);
      ghost var before := entries;
      forall ip ensures Agrees(limits, Entry(ip), Unpruned(limits, history, ip), now) {
        AgreesLater(limits, Entry(ip), Unpruned(limits, history, ip), clock, now);
      }
      entries := map ip | ip in entries && Kept(limits, entries[ip], now) :: Trimmed(limits, entries[ip], now);
      clock := now;
      forall ip ensures Agrees(limits, Entry(ip), Unpruned(limits, history, ip), now) {
        PruneAgrees(limits, if ip in before then before[ip] else CLEAN, Unpruned(limits, history, ip), now);
      }
    }

    /** check_allowed_with answers as the unpruned history does. */
    method CheckAllowed(ip: string, now: nat) returns (allowed: bool)
      requires Valid() && clock <= now
      modifies this
      ensures Valid() && clock == now && history == old(history) + [Check(ip, now)]
      ensures allowed <==> Allowed(limits, old(history), ip, now)
      ensures allowed <==> !LockedOut(limits, old(history), ip, now)
    {
      hide LockedOut, Ordered, OrderedUpTo;
      OrderedLater(history, clock, now);
      RefusedExactlyWhileLocked(limits, history, ip, now);
      PruneAuth(now);
      assert Agrees(limits, Entry(ip), Unpruned(limits, history, ip), now);
      allowed := !(ip in entries && entries[ip].lockoutUntil > now);
      Note(Check(ip, now));
    }

    method RecordFailure(ip: string, now: nat)
      requires Valid() && clock <= now
      modifies this
      ensures Valid() && clock == now && history == old(history) + [Failure(ip, now)]
    {
      hide Unpruned, Agrees, Failed, Ordered, OrderedUpTo;
      OrderedLater(history, clock, now);
      PruneAuth(now);
      ghost var past := history;
      var st := if ip in entries then entries[ip] else CLEAN;
      assert Agrees(limits, Entry(ip), Unpruned(limits, past, ip), now);
      st := PushFailure(limits, st, now, Unpruned(limits, past, ip));
      entries := entries[ip := st];
      history := history + [Failure(ip, now)];
      forall x ensures Agrees(limits, Entry(x), Unpruned(limits, history, x), now) {
        UnprunedStep(limits, past, Failure(ip, now), x);
      }
    }

    method RecordSuccess(ip: string, now: nat)
      requires Valid() && clock <= now
      modifies this
      ensures Valid() && clock == now && history == old(history) + [Success(ip, now)]
    {
      hide Unpruned, Agrees, Recent, Ordered, OrderedUpTo;
      OrderedLater(history, clock, now);
      PruneAuth(now);
      entries := entries - {ip};
      history := history + [Success(ip, now)];
      forall x ensures Agrees(limits, Entry(x), Unpruned(limits, history, x), now) {
        UnprunedStep(limits, old(history), Success(ip, now), x);
        CleanAgrees(limits, now);
      }
    }

    ghost method Note(e: Event)
      requires Valid() && e.Check? && e.at == clock
      modifies this`history
      ensures Valid() && history == old(history) + [e]
    {
      hide Unpruned, Agrees, Ordered, OrderedUpTo;
      OrderedLater(history, clock, clock);
      history := history + [e];
      forall x ensures Agrees(limits, Entry(x), Unpruned(limits, history, x), clock) {
        UnprunedStep(limits, old(history), e, x);
      }
    }
  }

  // ----- outbound recipients -----

  datatype Sending = Sending(at: nat, count: nat)

  function Total(events: seq<Sending>, start: nat): nat {
    if events == [] then 0
    else (if events[0].at >= start then events[0].count else 0) + Total(events[1..], start)
  }

  function RecentSendings(events: seq<Sending>, start: nat): seq<Sending> {
    if events == [] then []
    else (if events[0].at >= start then [events[0]] else []) + RecentSendings(events[1..], start)
  }

  lemma {:induction false} TotalJoin(a: seq<Sending>, b: seq<Sending>, start: nat)
    ensures Total(a + b, start) == Total(a, start) + Total(b, start)
    decreases |a|
  {
    if a == [] {
      assert a + b == b;
    } else {
      assert (a + b)[1..] == a[1..] + b;
      TotalJoin(a[1..], b, start);
    }
  }

  lemma {:induction false} TotalOfRecent(a: seq<Sending>, low: nat, high: nat)
    requires low <= high
    ensures Total(RecentSendings(a, low), high) == Total(a, high)
    decreases |a|
  {
    if a == [] {
    } else {
      TotalOfRecent(a[1..], low, high);
      TotalJoin(if a[0].at >= low then [a[0]] else [], RecentSendings(a[1..], low), high);
    }
  }

  lemma {:induction false} TotalShrinks(a: seq<Sending>, low: nat, high: nat)
    requires low <= high
    ensures Total(a, high) <= Total(a, low)
    decreases |a|
  {
    if a == [] {
    } else {
      TotalShrinks(a[1..], low, high);
    }
  }

  /** Recipients sent between start and end, both included. */
  function Between(sent: seq<Sending>, start: nat, end: nat): nat {
    if sent == [] then 0
    else (if start <= sent[0].at <= end then sent[0].count else 0) + Between(sent[1..], start, end)
  }

  lemma {:induction false} BetweenJoin(a: seq<Sending>, b: seq<Sending>, start: nat, end: nat)
    ensures Between(a + b, start, end) == Between(a, start, end) + Between(b, start, end)
    decreases |a|
  {
    if a == [] {
      assert a + b == b;
    } else {
      assert (a + b)[1..] == a[1..] + b;
      BetweenJoin(a[1..], b, start, end);
    }
  }

  lemma {:induction false} BetweenAtMostTotal(a: seq<Sending>, start: nat, end: nat)
    ensures Between(a, start, end) <= Total(a, start)
    decreases |a|
  {
    if a == [] {
    } else {
      BetweenAtMostTotal(a[1..], start, end);
    }
  }

  /** No window of an hour holds more than max recipients. */
  ghost predicate UnderCap(sent: seq<Sending>, max: nat) {
    forall t: nat :: Between(sent, SaturatingSub(t, 3600), t) <= max
  }

  /** A sending that fits the window ending at its own time fits every window. */
  lemma CapKept(sent: seq<Sending>, now: nat, n: nat, max: nat)
    requires UnderCap(sent, max)
    requires Total(sent, SaturatingSub(now, OUTBOUND_WINDOW)) + n <= max
    ensures UnderCap(sent + [Sending(now, n)], max)
  {
    var s := Sending(now, n);
    forall t: nat ensures Between(sent + [s], SaturatingSub(t, OUTBOUND_WINDOW), t) <= max {
      var start := SaturatingSub(t, OUTBOUND_WINDOW);
      BetweenJoin(sent, [s], start, t);
      assert Between([s], start, t) == if start <= now <= t then n else 0 by { assert [s][1..] == []; }
      assert Between(sent, start, t) <= max;
      if start <= now <= t {
        BetweenAtMostTotal(sent, start, t);
        TotalShrinks(sent, SaturatingSub(now, OUTBOUND_WINDOW), start);
      }
    }
  }

  /** The stored events and everything ever sent agree on every window a later call can ask about. */
  ghost predicate SameTotals(stored: seq<Sending>, sent: seq<Sending>, now: nat) {
    forall start: nat :: start >= SaturatingSub(now, OUTBOUND_WINDOW) ==> Total(stored, start) == Total(sent, start)
  }

  lemma TotalsAfter(stored: seq<Sending>, sent: seq<Sending>, now: nat, n: nat)
    requires SameTotals(stored, sent, now)
    ensures SameTotals(RecentSendings(stored, SaturatingSub(now, OUTBOUND_WINDOW)) + [Sending(now, n)],
                       sent + [Sending(now, n)], now)
  {
    var low := SaturatingSub(now, OUTBOUND_WINDOW);
    forall start: nat | start >= low
      ensures Total(RecentSendings(stored, low) + [Sending(now, n)], start) == Total(sent + [Sending(now, n)], start)
    {
      TotalJoin(RecentSendings(stored, low), [Sending(now, n)], start);
      TotalJoin(sent, [Sending(now, n)], start);
      TotalOfRecent(stored, low, start);
      assert Total(stored, start) == Total(sent, start);
    }
  }

  class OutboundTracker {
    var events: map<string, seq<Sending>>
    const maxRcpts: nat
    ghost var sent: map<string, seq<Sending>>
    ghost var clock: nat

    ghost function Sent(user: string): seq<Sending>
      reads this
    {
      if user in sent then sent[user] else []
    }

    ghost function Stored(user: string): seq<Sending>
      reads this
    {
      if user in events then events[user] else []
    }

    ghost predicate Valid()
      reads this
    {
      && maxRcpts < 0x1_0000_0000
      && (forall user :: SameTotals(Stored(user), Sent(user), clock))
      && (forall user :: UnderCap(Sent(user), maxRcpts))
    }

    constructor (maxRcpts: nat)
      requires maxRcpts < 0x1_0000_0000
      ensures Valid() && sent == map[] && clock == 0
      ensures this.maxRcpts == if maxRcpts == 0 then 1 else maxRcpts
    {
      this.maxRcpts := if maxRcpts == 0 then 1 else maxRcpts;
      events, sent, clock := map[], map[], 0;
    }

    /** check_outbound_at: true exactly when everything sent in the window, pruned or not, leaves room. */
    method CheckOutbound(user: string, n: nat, now: nat) returns (ok: bool)
      requires Valid() && clock <= now && n <= MAX_U64
      ensures ok <==> Total(Sent(user), SaturatingSub(now, 3600)) + n <= maxRcpts
    {
      var start := SaturatingSub(now, OUTBOUND_WINDOW);
      var used := if user in events then Total(events[user], start) else 0;
      assert SameTotals(Stored(user), Sent(user), clock);
      assert Total(Stored(user), start) == Total(Sent(user), start);
      ok := SaturatingAdd(used, n) <= maxRcpts;
    }

    /** check_outbound_at followed by record_outbound_at: the cap holds in every window, at every time, for every
        user. */
    method CheckAndRecord(user: string, n: nat, now: nat) returns (ok: bool)
      requires Valid() && clock <= now && n <= MAX_U64
      modifies this
      ensures Valid() && clock == now
      ensures ok <==> Total(old(Sent(user)), SaturatingSub(now, 3600)) + n <= maxRcpts
      ensures sent == if ok && n > 0 then old(sent)[user := old(Sent(user)) + [Sending(now, n)]] else old(sent)
    {
      ok := CheckOutbound(user, n, now);
      hide Total, RecentSendings, UnderCap;
      forall u ensures SameTotals(Stored(u), Sent(u), now) {
        assert SameTotals(Stored(u), Sent(u), clock);
      }
      clock := now;
      if !ok || n == 0 {
        assert forall u :: Stored(u) == old(Stored(u)) && Sent(u) == old(Sent(u));
        return;
      }
      hide SameTotals;
      var start := SaturatingSub(now, OUTBOUND_WINDOW);
      assert n % 0x1_0000_0000 == n;
      TotalsAfter(Stored(user), Sent(user), now, n);
      CapKept(Sent(user), now, n, maxRcpts);
      var kept := RecentSendings(if user in events then events[user] else [], start);
      events := events[user := kept + [Sending(now, n % 0x1_0000_0000)]];
      sent := sent[user := Sent(user) + [Sending(now, n)]];
      forall u ensures SameTotals(Stored(u), Sent(u), clock) {
        assert u != user ==> SameTotals(old(Stored(u)), old(Sent(u)), now);
      }
      forall u ensures UnderCap(Sent(u), maxRcpts) {
        assert u != user ==> UnderCap(old(Sent(u)), maxRcpts);
      }
    }
  }
}
