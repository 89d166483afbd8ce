/** The connection limiter: atomic counter, mutex-guarded map, guards that release on drop, as interleaved steps. */
module Limits {
  datatype Caps = Caps(maxGlobal: nat, maxPerIp: nat)

  /** Who holds the mutex, and how far that thread has come. */
  datatype Lock =
    | Free
    | Entered(ip: string)
    | Reserved(ip: string)
    | Counted(ip: string, prev: int)
    | Releasing(ip: string)

  /** live: guards in callers' hands; half: drops that left the counter but not yet the map. */
  datatype State = State(
    global: int,
    perIp: map<string, nat>,
    live: multiset<string>,
    half: multiset<string>,
    lock: Lock)

  /** The atomic steps of try_acquire (first four) and of release (last three), of any thread. */
  datatype Step =
    | Enter(ip: string)
    | CheckIp
    | Count
    | Settle
    | Drop(ip: string)
    | EnterRelease(ip: string)
    | Uncount

  const INITIAL := State(0, map[], multiset{}, multiset{}, Free)

  function Current(perIp: map<string, nat>, ip: string): nat {
    if ip in perIp then perIp[ip] else 0
  }

  function Decremented(perIp: map<string, nat>, ip: string): map<string, nat> {
    if ip !in perIp then perIp
    else if perIp[ip] <= 1 then perIp - {ip}
    else perIp[ip := perIp[ip] - 1]
  }

  predicate Enabled(s: State, step: Step) {
    match step
    case Enter(_) => s.lock == Free
    case CheckIp => s.lock.Entered?
    case Count => s.lock.Reserved?
    case Settle => s.lock.Counted?
    case Drop(ip) => ip in s.live
    case EnterRelease(ip) => s.lock == Free && ip in s.half
    case Uncount => s.lock.Releasing?
  }

  function Next(c: Caps, s: State, step: Step): State
    requires Enabled(s, step)
  {
    match step
    case Enter(ip) => s.(lock := Entered(ip))
    case CheckIp =>
      if Current(s.perIp, s.lock.ip) >= c.maxPerIp then s.(lock := Free) else s.(lock := Reserved(s.lock.ip))
    case Count => s.(global := s.global + 1, lock := Counted(s.lock.ip, s.global))
    case Settle =>
      var ip := s.lock.ip;
      if s.lock.prev >= c.maxGlobal then s.(global := s.global - 1, lock := Free)
      else s.(perIp := s.perIp[ip := Current(s.perIp, ip) + 1], live := s.live + multiset{ip}, lock := Free)
    case Drop(ip) => s.(global := s.global - 1, live := s.live - multiset{ip}, half := s.half + multiset{ip})
    case EnterRelease(ip) => s.(lock := Releasing(ip))
    case Uncount =>
      s.(perIp := Decremented(s.perIp, s.lock.ip), half := s.half - multiset{s.lock.ip}, lock := Free)
  }

  /** A schedule every step of which is possible when its turn comes. */
  predicate Playable(c: Caps, s: State, steps: seq<Step>)
    decreases |steps|
  {
    steps == [] || (Enabled(s, steps[0]) && Playable(c, Next(c, s, steps[0]), steps[1..]))
  }

  function Play(c: Caps, s: State, steps: seq<Step>): State
    requires Playable(c, s, steps)
    decreases |steps|
  {
    if steps == [] then s else Play(c, Next(c, s, steps[0]), steps[1..])
  }

  /** The map counts live and half-released guards, holds no zero entry and stays within the limit. */
  ghost predicate MapCounts(perIp: map<string, nat>, live: multiset<string>, half: multiset<string>, max: nat) {
    && (forall ip :: live[ip] + half[ip] == Current(perIp, ip) <= max)
    && (forall ip :: ip in perIp ==> perIp[ip] > 0)
  }

  /** The counter counts live guards and the acquirer in flight; the map counts live and half-released guards. */
  ghost predicate Inv(c: Caps, s: State) {
    && s.global == |s.live| + (if s.lock.Counted? then 1 else 0)
    && |s.live| <= c.maxGlobal
    && MapCounts(s.perIp, s.live, s.half, c.maxPerIp)
    && (s.lock.Reserved? || s.lock.Counted? ==> Current(s.perIp, s.lock.ip) < c.maxPerIp)
    && (s.lock.Counted? ==> |s.live| <= s.lock.prev)
    && (s.lock.Releasing? ==> s.lock.ip in s.half)
  }

  lemma MapAfterAdmit(perIp: map<string, nat>, live: multiset<string>, half: multiset<string>, max: nat, ip: string)
    requires MapCounts(perIp, live, half, max) && Current(perIp, ip) < max
    ensures MapCounts(perIp[ip := Current(perIp, ip) + 1], live + multiset{ip}, half, max)
  {
    var t, l := perIp[ip := Current(perIp, ip) + 1], live + multiset{ip};
    forall x ensures l[x] + half[x] == Current(t, x) <= max {
      assert live[x] + half[x] == Current(perIp, x) <= max;
      assert l[x] == live[x] + (if x == ip then 1 else 0);
    }
  }

  lemma MapAfterDrop(perIp: map<string, nat>, live: multiset<string>, half: multiset<string>, max: nat, ip: string)
    requires MapCounts(perIp, live, half, max) && ip in live
    ensures MapCounts(perIp, live - multiset{ip}, half + multiset{ip}, max)
  {
    var l, h := live - multiset{ip}, half + multiset{ip};
    forall x ensures l[x] + h[x] == Current(perIp, x) <= max {
      assert live[x] + half[x] == Current(perIp, x) <= max;
    }
  }

  lemma MapAfterRelease(perIp: map<string, nat>, live: multiset<string>, half: multiset<string>, max: nat, ip: string)
    requires MapCounts(perIp, live, half, max) && ip in half
    ensures MapCounts(Decremented(perIp, ip), live, half - multiset{ip}, max)
  {
    var t, h := Decremented(perIp, ip), half - multiset{ip};
    assert live[ip] + half[ip] == Current(perIp, ip);
    forall x ensures live[x] + h[x] == Current(t, x) <= max {
      assert live[x] + half[x] == Current(perIp, x) <= max;
      assert h[x] == if x == ip then half[x] - 1 else half[x];
    }
  }

  lemma StepKeeps(c: Caps, s: State, step: Step)
    requires Inv(c, s) && Enabled(s, step)
    ensures Inv(c, Next(c, s, step))
  {
    match step {
      case Settle => SettleKeeps(c, s);
      case Drop(ip) => DropKeeps(c, s, ip);
      case Uncount => UncountKeeps(c, s);
      case _ => hide MapCounts, Decremented, Current;
    }
  }

  lemma SettleKeeps(c: Caps, s: State)
    requires Inv(c, s) && Enabled(s, Settle)
    ensures Inv(c, Next(c, s, Settle))
  {
    hide MapCounts, Decremented, Current;
    MapAfterAdmit(s.perIp, s.live, s.half, c.maxPerIp, s.lock.ip);
    assert |s.live + multiset{s.lock.ip}| == |s.live| + 1;
  }

  lemma DropKeeps(c: Caps, s: State, ip: string)
    requires Inv(c, s) && Enabled(s, Drop(ip))
    ensures Inv(c, Next(c, s, Drop(ip)))
  {
    hide MapCounts, Decremented, Current;
    MapAfterDrop(s.perIp, s.live, s.half, c.maxPerIp, ip);
    assert |s.live - multiset{ip}| == |s.live| - 1;
  }

  lemma UncountKeeps(c: Caps, s: State)
    requires Inv(c, s) && Enabled(s, Uncount)
    ensures Inv(c, Next(c, s, Uncount))
  {
    hide MapCounts, Decremented, Current;
    MapAfterRelease(s.perIp, s.live, s.half, c.maxPerIp, s.lock.ip);
  }

  lemma {:induction false} PlayKeeps(c: Caps, s: State, steps: seq<Step>)
    requires Inv(c, s) && Playable(c, s, steps)
    ensures Inv(c, Play(c, s, steps))
    decreases |steps|
  {
    if steps == [] {
    } else {
      StepKeeps(c, s, steps[0]);
      PlayKeeps(c, Next(c, s, steps[0]), steps[1..]);
    }
  }

  /** Both limits hold in every interleaving, and the map is exactly the live and half-released guards. */
  lemma LimitsHold(c: Caps, steps: seq<Step>)
    requires Playable(c, INITIAL, steps)
    ensures var s := Play(c, INITIAL, steps);
            |s.live| <= c.maxGlobal
            && (forall ip :: s.live[ip] <= c.maxPerIp)
            && (forall ip :: Current(s.perIp, ip) == s.live[ip] + s.half[ip])
            && 0 <= s.global <= c.maxGlobal + 1
  {
    PlayKeeps(c, INITIAL, steps);
    var s := Play(c, INITIAL, steps);
    forall ip ensures s.live[ip] <= c.maxPerIp {
      assert s.live[ip] + s.half[ip] == Current(s.perIp, ip) <= c.maxPerIp;
    }
  }

  /** The over-count exists only while its acquirer holds the lock, so what any acquirer reads is the number of live
      guards. */
  lemma OverCountUnseen(c: Caps, steps: seq<Step>)
    requires Playable(c, INITIAL, steps)
    ensures var s := Play(c, INITIAL, steps);
            (s.global > c.maxGlobal ==> s.lock.Counted? && forall ip :: !Enabled(s, Enter(ip)))
            && (Enabled(s, Count) ==> Next(c, s, Count).lock.prev == |s.live|)
  {
    PlayKeeps(c, INITIAL, steps);
  }

  /** A drop never takes the counter below zero, and the release that follows finds its map entry. */
  lemma ReleaseFindsItsEntry(c: Caps, steps: seq<Step>)
    requires Playable(c, INITIAL, steps)
    ensures var s := Play(c, INITIAL, steps);
            (forall ip :: Enabled(s, Drop(ip)) ==> s.global > 0)
            && (Enabled(s, Uncount) ==> s.lock.ip in s.perIp && s.perIp[s.lock.ip] > 0)
  {
    PlayKeeps(c, INITIAL, steps);
    var s := Play(c, INITIAL, steps);
    forall ip | Enabled(s, Drop(ip)) ensures s.global > 0 {
      if |s.live| == 0 { assert s.live == multiset{}; }
    }
    if Enabled(s, Uncount) {
      assert s.live[s.lock.ip] + s.half[s.lock.ip] == Current(s.perIp, s.lock.ip);
    }
  }

  /** All guards dropped, all releases done, nobody acquiring: the limiter is as new. */
  lemma NothingLeaks(c: Caps, steps: seq<Step>)
    requires Playable(c, INITIAL, steps)
    requires var s := Play(c, INITIAL, steps); s.live == multiset{} && s.half == multiset{} && s.lock == Free
    ensures Play(c, INITIAL, steps) == INITIAL
  {
    PlayKeeps(c, INITIAL, steps);
    var s := Play(c, INITIAL, steps);
    forall ip ensures ip !in s.perIp {
      assert s.live[ip] + s.half[ip] == Current(s.perIp, ip);
    }
  }

  /** The work left before the limiter is idle. */
  function Pending(s: State): nat {
    2 * |s.live| + |s.half|
  }

  function LockRank(l: Lock): nat {
    match l
    case Free => 0
    case Entered(_) => 3
    case Reserved(_) => 2
    case Counted(_, _) => 1
    case Releasing(_) => 0
  }

  lemma {:induction false} PlayCons(c: Caps, s: State, step: Step, rest: seq<Step>)
    requires Enabled(s, step) && Playable(c, Next(c, s, step), rest)
    ensures Playable(c, s, [step] + rest) && Play(c, s, [step] + rest) == Play(c, Next(c, s, step), rest)
  {
    assert ([step] + rest)[1..] == rest;
  }

  /** The next step towards idleness: finish what holds the lock, then release, then drop. */
  lemma WindDownStep(c: Caps, s: State) returns (step: Step)
    requires Inv(c, s) && !(s.live == multiset{} && s.half == multiset{} && s.lock == Free)
    ensures Enabled(s, step)
    ensures var t := Next(c, s, step);
            || LockRank(t.lock) < LockRank(s.lock)
            || (LockRank(t.lock) == LockRank(s.lock) && Pending(t) < Pending(s))
            || (LockRank(t.lock) == LockRank(s.lock) && Pending(t) == Pending(s) && s.lock == Free && t.lock != Free)
  {
    hide Current, Decremented, MapCounts;
    match s.lock {
      case Entered(_) => step := CheckIp;
      case Reserved(_) => step := Count;
      case Counted(_, _) => step := Settle;
      case Releasing(ip) =>
        step := Uncount;
        assert |s.half - multiset{ip}| == |s.half| - 1;
      case Free =>
        if s.half != multiset{} {
          var ip :| ip in s.half;
          step := EnterRelease(ip);
        } else {
          var ip :| ip in s.live;
          step := Drop(ip);
          assert |s.live - multiset{ip}| == |s.live| - 1;
        }
    }
  }

  /** From every reachable state the threads can run on until the limiter is as new: no deadlock, no lost slot. */
  lemma {:induction false} CanWindDown(c: Caps, s: State)
    requires Inv(c, s)
    ensures exists steps :: Playable(c, s, steps) && Play(c, s, steps) == INITIAL
    decreases LockRank(s.lock), Pending(s), if s.lock == Free then 1 else 0
  {
    if s.live == multiset{} && s.half == multiset{} && s.lock == Free {
      forall ip ensures ip !in s.perIp {
        assert s.live[ip] + s.half[ip] == Current(s.perIp, ip);
      }
      assert s == INITIAL;
      assert Playable(c, s, []) && Play(c, s, []) == INITIAL;
    } else {
      var step := WindDownStep(c, s);
      StepKeeps(c, s, step);
      CanWindDown(c, Next(c, s, step));
      var rest :| Playable(c, Next(c, s, step), rest) && Play(c, Next(c, s, step), rest) == INITIAL;
      PlayCons(c, s, step, rest);
    }
  }

  // ----- the limiter object, one whole call at a time -----

  function AcquireSteps(c: Caps, s: State, ip: string): seq<Step> {
    if Current(s.perIp, ip) >= c.maxPerIp then [Enter(ip), CheckIp] else [Enter(ip), CheckIp, Count, Settle]
  }

  function ReleaseSteps(ip: string): seq<Step> {
    [Drop(ip), EnterRelease(ip), Uncount]
  }

  class ConnLimiter {
    var global: int
    var perIp: map<string, nat>
    const maxGlobal: nat
    const maxPerIp: nat
    ghost var live: multiset<string>

    ghost function Model(): State
      reads this
    {
      State(global, perIp, live, multiset{}, Free)
    }

    ghost predicate Valid()
      reads this
    {
      Inv(Caps(maxGlobal, maxPerIp), Model())
    }

    constructor (maxGlobal: nat, maxPerIp: nat)
      ensures Valid() && Model() == INITIAL
      ensures this.maxGlobal == (if maxGlobal == 0 then 1 else maxGlobal)
      ensures this.maxPerIp == (if maxPerIp == 0 then 1 else maxPerIp)
    {
      global, perIp, live := 0, map[], multiset{};
      this.maxGlobal := if maxGlobal == 0 then 1 else maxGlobal;
      this.maxPerIp := if maxPerIp == 0 then 1 else maxPerIp;
    }

    /** An uninterrupted call: grants a guard exactly when both limits leave room. */
    method TryAcquire(ip: string) returns (granted: bool)
      requires Valid()
      modifies this
      ensures Valid()
      ensures granted <==> old(live)[ip] < maxPerIp && |old(live)| < maxGlobal
      ensures live == if granted then old(live) + multiset{ip} else old(live)
      ensures var c := Caps(maxGlobal, maxPerIp); var steps := AcquireSteps(c, old(Model()), ip);
              Playable(c, old(Model()), steps) && Play(c, old(Model()), steps) == Model()
    {
      ghost var c, before := Caps(maxGlobal, maxPerIp), Model();
      AcquirePlays(c, before, ip);
      hide Play, Playable, AcquireSteps, Inv;
      var current := Current(perIp, ip);
      if current >= maxPerIp {
        return false;
      }
      var prev := global;
      global := global + 1;
      if prev >= maxGlobal {
        global := global - 1;
        assert Model() == before;
        return false;
      }
      perIp := perIp[ip := current + 1];
      live := live + multiset{ip};
      return true;
    }

    /** An uninterrupted drop of a live guard. */
    method Release(ip: string)
      requires Valid() && ip in live
      modifies this
      ensures Valid()
      ensures live == old(live) - multiset{ip}
      ensures var c := Caps(maxGlobal, maxPerIp);
              Playable(c, old(Model()), ReleaseSteps(ip)) && Play(c, old(Model()), ReleaseSteps(ip)) == Model()
    {
      ghost var c, before := Caps(maxGlobal, maxPerIp), Model();
      ReleasePlays(c, before, ip);
      global := global - 1;
      live := live - multiset{ip};
      if ip in perIp {
        var n := perIp[ip];
        n := if n == 0 then 0 else n - 1;
        perIp := perIp[ip := n];
        if n == 0 {
          perIp := perIp - {ip};
        }
      }
      assert perIp == Decremented(before.perIp, ip);
    }
  }

  lemma PlayEnd(c: Caps, s: State)
    ensures Playable(c, s, []) && Play(c, s, []) == s
  {
  }

  lemma RefusePlays(c: Caps, s: State, ip: string)
    requires s.lock == Free && Current(s.perIp, ip) >= c.maxPerIp
    ensures Playable(c, s, [Enter(ip), CheckIp]) && Play(c, s, [Enter(ip), CheckIp]) == s
  {
    hide Playable, Play, Current;
    var s1 := Next(c, s, Enter(ip));
    PlayEnd(c, s);
    assert Next(c, s1, CheckIp) == s;
    PlayCons(c, s1, CheckIp, []);
    assert [CheckIp] + [] == [CheckIp];
    PlayCons(c, s, Enter(ip), [CheckIp]);
    assert [Enter(ip)] + [CheckIp] == [Enter(ip), CheckIp];
  }

  function Settled(c: Caps, s: State, ip: string): State {
    if s.global >= c.maxGlobal then s
    else s.(global := s.global + 1, perIp := s.perIp[ip := Current(s.perIp, ip) + 1], live := s.live + multiset{ip})
  }

  lemma CountPlays(c: Caps, s: State, ip: string)
    requires s.lock == Free && Current(s.perIp, ip) < c.maxPerIp
    ensures Playable(c, s, [Enter(ip), CheckIp, Count, Settle])
    ensures Play(c, s, [Enter(ip), CheckIp, Count, Settle]) == Settled(c, s, ip)
  {
    hide Playable, Play, Current;
    var s1 := Next(c, s, Enter(ip));
    var s2 := Next(c, s1, CheckIp);
    var s3 := Next(c, s2, Count);
    assert Next(c, s3, Settle) == Settled(c, s, ip);
    PlayEnd(c, Settled(c, s, ip));
    PlayCons(c, s3, Settle, []);
    assert [Settle] + [] == [Settle];
    PlayCons(c, s2, Count, [Settle]);
    assert [Count] + [Settle] == [Count, Settle];
    PlayCons(c, s1, CheckIp, [Count, Settle]);
    assert [CheckIp] + [Count, Settle] == [CheckIp, Count, Settle];
    PlayCons(c, s, Enter(ip), [CheckIp, Count, Settle]);
    assert [Enter(ip)] + [CheckIp, Count, Settle] == [Enter(ip), CheckIp, Count, Settle];
  }

  /** What an uninterrupted try_acquire does, step by step. */
  lemma AcquirePlays(c: Caps, s: State, ip: string)
    requires Inv(c, s) && s.lock == Free && s.half == multiset{}
    ensures var steps := AcquireSteps(c, s, ip);
            Current(s.perIp, ip) == s.live[ip] && s.global == |s.live|
            && Playable(c, s, steps) && Inv(c, Play(c, s, steps))
            && Play(c, s, steps) == if Current(s.perIp, ip) >= c.maxPerIp then s else Settled(c, s, ip)
  {
    assert s.live[ip] + s.half[ip] == Current(s.perIp, ip);
    hide Inv, Playable, Play, Current, Settled;
    if Current(s.perIp, ip) >= c.maxPerIp {
      RefusePlays(c, s, ip);
    } else {
      CountPlays(c, s, ip);
    }
    PlayKeeps(c, s, AcquireSteps(c, s, ip));
  }

  /** What an uninterrupted release does, step by step. */
  lemma ReleasePlays(c: Caps, s: State, ip: string)
    requires Inv(c, s) && s.lock == Free && s.half == multiset{} && ip in s.live
    ensures Playable(c, s, ReleaseSteps(ip)) && Inv(c, Play(c, s, ReleaseSteps(ip)))
            && Play(c, s, ReleaseSteps(ip))
               == s.(global := s.global - 1, perIp := Decremented(s.perIp, ip), live := s.live - multiset{ip})
  {
    var s1 := Next(c, s, Drop(ip));
    var s2 := Next(c, s1, EnterRelease(ip));
    var s3 := Next(c, s2, Uncount);
    assert s3.half == multiset{};
    assert Play(c, s3, []) == s3;
    PlayCons(c, s2, Uncount, []);
    PlayCons(c, s1, EnterRelease(ip), [Uncount]);
    assert [EnterRelease(ip)] + [Uncount] == [EnterRelease(ip), Uncount];
    PlayCons(c, s, Drop(ip), [EnterRelease(ip), Uncount]);
    assert [Drop(ip)] + [EnterRelease(ip), Uncount] == ReleaseSteps(ip);
    PlayKeeps(c, s, ReleaseSteps(ip));
  }
}
