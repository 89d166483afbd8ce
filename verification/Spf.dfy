/** The SPF evaluator: mutual recursion over possibly cyclic records, bounded by one shared lookup counter. */
module Spf {
  import opened IpNetwork
  import opened Results
  import opened SpfRecord
  import opened Text

  datatype Caps = Caps(lookups: nat, depth: nat)

  const SOURCE_CAPS := Caps(10, 10)

  /** A value and the counter after computing it. */
  datatype Outcome<T> = Outcome(value: T, lookups: nat)

  datatype Match = Yes | No | TempMatch | PermMatch | Included(answer: Answer)

  function Room(c: Caps, lookups: nat): nat {
    if lookups < c.lookups then c.lookups - lookups else 0
  }

  ghost predicate Covered(ip: IpAddr, addrs: seq<IpAddr>, cidr4: U8, cidr6: U8) {
    exists i :: 0 <= i < |addrs| && Covers(ip, addrs[i], cidr4, cidr6)
  }

  ghost function MatchHosts(c: Caps, z: Zone, ip: IpAddr, hosts: seq<string>, cidr4: U8, cidr6: U8, lookups: nat)
      : (r: Outcome<Match>)
    ensures r.lookups >= lookups && (lookups <= c.lookups ==> r.lookups <= c.lookups)
    decreases |hosts|
  {
    if hosts == [] then Outcome(No, lookups)
    else if lookups >= c.lookups then Outcome(PermMatch, lookups)
    else match z.a(hosts[0])
         case Err(Temp) => Outcome(TempMatch, lookups + 1)
         case Err(Perm) => MatchHosts(c, z, ip, hosts[1..], cidr4, cidr6, lookups + 1)
         case Ok(addrs) =>
           if Covered(ip, addrs, cidr4, cidr6) then Outcome(Yes, lookups + 1)
           else MatchHosts(c, z, ip, hosts[1..], cidr4, cidr6, lookups + 1)
  }

  /** One exchanger. */
  lemma HostsStep(c: Caps, z: Zone, ip: IpAddr, hosts: seq<string>, i: nat, cidr4: U8, cidr6: U8, lookups: nat)
    requires i < |hosts|
    ensures MatchHosts(c, z, ip, hosts[i..], cidr4, cidr6, lookups)
         == if lookups >= c.lookups then Outcome(PermMatch, lookups)
            else if z.a(hosts[i]) == Err(Temp) then Outcome(TempMatch, lookups + 1)
            else if z.a(hosts[i]).Ok? && Covered(ip, z.a(hosts[i]).value, cidr4, cidr6) then Outcome(Yes, lookups + 1)
            else MatchHosts(c, z, ip, hosts[i + 1..], cidr4, cidr6, lookups + 1)
  {
    hide Covered;
    assert hosts[i..][0] == hosts[i] && hosts[i..][1..] == hosts[i + 1..];
  }

  lemma NoHosts(c: Caps, z: Zone, ip: IpAddr, cidr4: U8, cidr6: U8, lookups: nat)
    ensures MatchHosts(c, z, ip, [], cidr4, cidr6, lookups) == Outcome(No, lookups)
  {
  }

  function Failed(e: DnsError): Match {
    if e.Temp? then TempMatch else PermMatch
  }

  ghost function MatchMechanism(c: Caps, z: Zone, ip: IpAddr, domain: string, mech: string, lookups: nat)
      : (r: Outcome<Match>)
    ensures r.lookups >= lookups && (lookups <= c.lookups ==> r.lookups <= c.lookups)
    decreases Room(c, lookups), 1, 0
  {
    match ParseMechanism(z, domain, mech)
    case All => Outcome(Yes, lookups)
    case Ip4(network, prefix) =>
      Outcome(if ip.V6? then No else if network.None? then PermMatch
              else if Ipv4InNetwork(ip.bits, network.value, prefix) then Yes else No, lookups)
    case Ip6(network, prefix) =>
      Outcome(if ip.V4? then No else if network.None? then PermMatch
              else if Ipv6InNetwork(ip.octets, network.value, prefix) then Yes else No, lookups)
    case A(target, c4, c6) =>
      if lookups >= c.lookups then Outcome(PermMatch, lookups)
      else
        var addrs := z.a(target);
        Outcome(if addrs.Err? then Failed(addrs.error) else if Covered(ip, addrs.value, c4, c6) then Yes else No,
                lookups + 1)
    case Mx(target, c4, c6) =>
      if lookups >= c.lookups then Outcome(PermMatch, lookups)
      else
        var hosts := z.mx(target);
        if hosts.Err? then Outcome(Failed(hosts.error), lookups + 1)
        else MatchHosts(c, z, ip, hosts.value, c4, c6, lookups + 1)
    case Include(inner) =>
      if inner == [] || lookups >= c.lookups then Outcome(PermMatch, lookups)
      else
        var r := EvaluateDomain(c, z, ip, inner, lookups, 0);
        Outcome(Included(r.value), r.lookups)
    case Skipped => Outcome(No, lookups)
  }

  const REDIRECT: string := "redirect="

  /** The terms after the version, and the last redirect seen. */
  ghost function EvaluateTerms(c: Caps, z: Zone, ip: IpAddr, domain: string, terms: seq<string>,
                               redirect: Option<string>, lookups: nat, depth: nat): (r: Outcome<Answer>)
    ensures r.lookups >= lookups && (lookups <= c.lookups ==> r.lookups <= c.lookups)
    decreases Room(c, lookups), 2, |terms|
  {
    if terms == [] then
      if redirect.None? then Outcome(Neutral, lookups)
      else if lookups >= c.lookups then Outcome(PermError, lookups)
      else EvaluateDomain(c, z, ip, redirect.value, lookups, depth + 1)
    else
      var term, rest := terms[0], terms[1..];
      if term == [] then EvaluateTerms(c, z, ip, domain, rest, redirect, lookups, depth)
      else if REDIRECT <= term then
        EvaluateTerms(c, z, ip, domain, rest, Some(z.lower(TrimDots(term[|REDIRECT|..]))), lookups, depth)
      else if "exp=" <= term then EvaluateTerms(c, z, ip, domain, rest, redirect, lookups, depth)
      else
        var (qual, mech) := ParseQualifier(term);
        var m := MatchMechanism(c, z, ip, domain, mech, lookups);
        match Decision(qual, m.value)
        case Some(answer) => Outcome(answer, m.lookups)
        case None => EvaluateTerms(c, z, ip, domain, rest, redirect, m.lookups, depth)
  }

  /** What a matched mechanism settles; None means the next term decides. */
  function Decision(qual: Answer, m: Match): Option<Answer> {
    match m
    case Yes => Some(qual)
    case No => None
    case TempMatch => Some(TempError)
    case PermMatch => Some(PermError)
    case Included(answer) =>
      if answer.Pass? then Some(qual) else if answer.TempError? || answer.PermError? then Some(answer) else None
  }

  function AfterVersion(record: string): seq<string> {
    var terms := SplitWhitespace(record);
    if terms == [] then [] else terms[1..]
  }

  ghost function EvaluateDomain(c: Caps, z: Zone, ip: IpAddr, domain: string, lookups: nat, depth: nat)
      : (r: Outcome<Answer>)
    ensures r.lookups >= lookups && (lookups <= c.lookups ==> r.lookups <= c.lookups)
    decreases Room(c, lookups), 0, 0
  {
    hide EvaluateTerms, FindRecord, AfterVersion;
    if depth > c.depth || lookups >= c.lookups then Outcome(PermError, lookups)
    else match z.txt(domain)
         case Err(e) => Outcome(if e.Temp? then TempError else PermError, lookups + 1)
         case Ok(txts) =>
           var record := FindRecord(txts);
           if record.None? then Outcome(NoRecord, lookups + 1)
           else EvaluateTerms(c, z, ip, domain, AfterVersion(record.value), None, lookups + 1, depth)
  }

  // ----- the limits -----

  lemma {:induction false} RaisedHosts(c: Caps, c': Caps, z: Zone, ip: IpAddr, hosts: seq<string>, cidr4: U8,
        cidr6: U8, lookups: nat)
    requires c.lookups <= c'.lookups
    requires MatchHosts(c, z, ip, hosts, cidr4, cidr6, lookups).value != PermMatch
    ensures MatchHosts(c', z, ip, hosts, cidr4, cidr6, lookups) == MatchHosts(c, z, ip, hosts, cidr4, cidr6, lookups)
    decreases |hosts|
  {
    hide Covers, Covered;
    if hosts != [] && (z.a(hosts[0]).Err? ==> z.a(hosts[0]).error.Perm?)
       && (z.a(hosts[0]).Ok? ==> !Covered(ip, z.a(hosts[0]).value, cidr4, cidr6)) {
      RaisedHosts(c, c', z, ip, hosts[1..], cidr4, cidr6, lookups + 1);
    }
  }

  lemma {:induction false} RaisedMechanism(c: Caps, c': Caps, z: Zone, ip: IpAddr, domain: string, mech: string,
        lookups: nat)
    requires c.lookups <= c'.lookups && c.depth <= c'.depth
    requires MatchMechanism(c, z, ip, domain, mech, lookups).value !in {PermMatch, Included(PermError)}
    ensures MatchMechanism(c', z, ip, domain, mech, lookups) == MatchMechanism(c, z, ip, domain, mech, lookups)
    decreases Room(c, lookups), 1, 0
  {
    hide ParseMechanism, EvaluateDomain, Covered, Ipv4InNetwork, Ipv6InNetwork;
    match ParseMechanism(z, domain, mech) {
      case Mx(target, c4, c6) =>
        if z.mx(target).Ok? {
          RaisedHosts(c, c', z, ip, z.mx(target).value, c4, c6, lookups + 1);
        }
      case Include(inner) =>
        RaisedDomain(c, c', z, ip, inner, lookups, 0);
      case _ =>
    }
  }

  lemma {:induction false} RaisedTerms(c: Caps, c': Caps, z: Zone, ip: IpAddr, domain: string, terms: seq<string>,
                    redirect: Option<string>, lookups: nat, depth: nat)
    requires c.lookups <= c'.lookups && c.depth <= c'.depth
    requires EvaluateTerms(c, z, ip, domain, terms, redirect, lookups, depth).value != PermError
    ensures EvaluateTerms(c', z, ip, domain, terms, redirect, lookups, depth)
         == EvaluateTerms(c, z, ip, domain, terms, redirect, lookups, depth)
    decreases Room(c, lookups), 2, |terms|
  {
    hide MatchMechanism, EvaluateDomain, ParseQualifier, TrimDots;
    if terms == [] {
      if redirect.Some? {
        RaisedDomain(c, c', z, ip, redirect.value, lookups, depth + 1);
      }
    } else {
      var term, rest := terms[0], terms[1..];
      if term == [] || (!(REDIRECT <= term) && "exp=" <= term) {
        RaisedTerms(c, c', z, ip, domain, rest, redirect, lookups, depth);
      } else if REDIRECT <= term {
        RaisedTerms(c, c', z, ip, domain, rest, Some(z.lower(TrimDots(term[|REDIRECT|..]))), lookups, depth);
      } else {
        var (qual, mech) := ParseQualifier(term);
        var m := MatchMechanism(c, z, ip, domain, mech, lookups);
        RaisedMechanism(c, c', z, ip, domain, mech, lookups);
        if Decision(qual, m.value).None? {
          RaisedTerms(c, c', z, ip, domain, rest, redirect, m.lookups, depth);
        }
      }
    }
  }

  /** Raising the limits changes no answer other than PermError. */
  lemma {:induction false} RaisedDomain(c: Caps, c': Caps, z: Zone, ip: IpAddr, domain: string, lookups: nat,
        depth: nat)
    requires c.lookups <= c'.lookups && c.depth <= c'.depth
    requires EvaluateDomain(c, z, ip, domain, lookups, depth).value != PermError
    ensures EvaluateDomain(c', z, ip, domain, lookups, depth) == EvaluateDomain(c, z, ip, domain, lookups, depth)
    decreases Room(c, lookups), 0, 0
  {
    hide EvaluateTerms, FindRecord, AfterVersion;
    if z.txt(domain).Ok? && FindRecord(z.txt(domain).value).Some? {
      RaisedTerms(c, c', z, ip, domain, AfterVersion(FindRecord(z.txt(domain).value).value), None, lookups + 1, depth);
    }
  }

  /** With depth at most the lookups made, the depth guard decides nothing: any larger depth limit gives the same. */
  lemma {:induction false} DepthGuardIdle(c: Caps, c': Caps, z: Zone, ip: IpAddr, domain: string, lookups: nat,
        depth: nat)
    requires c.lookups == c'.lookups <= c.depth && c'.lookups <= c'.depth && depth <= lookups
    ensures EvaluateDomain(c', z, ip, domain, lookups, depth) == EvaluateDomain(c, z, ip, domain, lookups, depth)
    ensures lookups < c.lookups ==> depth <= c.depth
    decreases Room(c, lookups), 0, 0
  {
    hide EvaluateTerms, FindRecord, AfterVersion;
    if lookups < c.lookups && z.txt(domain).Ok? && FindRecord(z.txt(domain).value).Some? {
      DepthIdleTerms(c, c', z, ip, domain, AfterVersion(FindRecord(z.txt(domain).value).value), None, lookups + 1,
            depth);
    }
  }

  lemma {:induction false} DepthIdleTerms(c: Caps, c': Caps, z: Zone, ip: IpAddr, domain: string, terms: seq<string>,
                    redirect: Option<string>, lookups: nat, depth: nat)
    requires c.lookups == c'.lookups <= c.depth && c'.lookups <= c'.depth && depth < lookups
    ensures EvaluateTerms(c', z, ip, domain, terms, redirect, lookups, depth)
         == EvaluateTerms(c, z, ip, domain, terms, redirect, lookups, depth)
    decreases Room(c, lookups), 2, |terms|
  {
    hide MatchMechanism, EvaluateDomain, ParseQualifier, TrimDots;
    if terms == [] {
      if redirect.Some? {
        DepthGuardIdle(c, c', z, ip, redirect.value, lookups, depth + 1);
      }
    } else {
      var term, rest := terms[0], terms[1..];
      if term == [] || (!(REDIRECT <= term) && "exp=" <= term) {
        DepthIdleTerms(c, c', z, ip, domain, rest, redirect, lookups, depth);
      } else if REDIRECT <= term {
        DepthIdleTerms(c, c', z, ip, domain, rest, Some(z.lower(TrimDots(term[|REDIRECT|..]))), lookups, depth);
      } else {
        var (qual, mech) := ParseQualifier(term);
        var m := MatchMechanism(c, z, ip, domain, mech, lookups);
        DepthIdleMechanism(c, c', z, ip, domain, mech, lookups);
        if Decision(qual, m.value).None? {
          DepthIdleTerms(c, c', z, ip, domain, rest, redirect, m.lookups, depth);
        }
      }
    }
  }

  lemma {:induction false} DepthIdleMechanism(c: Caps, c': Caps, z: Zone, ip: IpAddr, domain: string, mech: string,
        lookups: nat)
    requires c.lookups == c'.lookups <= c.depth && c'.lookups <= c'.depth
    ensures MatchMechanism(c', z, ip, domain, mech, lookups) == MatchMechanism(c, z, ip, domain, mech, lookups)
    decreases Room(c, lookups), 1, 0
  {
    hide ParseMechanism, EvaluateDomain, Covered, Ipv4InNetwork, Ipv6InNetwork;
    match ParseMechanism(z, domain, mech) {
      case Mx(target, c4, c6) =>
        if z.mx(target).Ok? {
          SameLimitHosts(c, c', z, ip, z.mx(target).value, c4, c6, lookups + 1);
        }
      case Include(inner) =>
        DepthGuardIdle(c, c', z, ip, inner, lookups, 0);
      case _ =>
    }
  }

  lemma {:induction false} SameLimitHosts(c: Caps, c': Caps, z: Zone, ip: IpAddr, hosts: seq<string>, cidr4: U8,
        cidr6: U8, lookups: nat)
    requires c.lookups == c'.lookups
    ensures MatchHosts(c', z, ip, hosts, cidr4, cidr6, lookups) == MatchHosts(c, z, ip, hosts, cidr4, cidr6, lookups)
    decreases |hosts|
  {
    hide Covers, Covered;
    if hosts == [] {
    } else {
      SameLimitHosts(c, c', z, ip, hosts[1..], cidr4, cidr6, lookups + 1);
    }
  }

  /** The source's limits: from the start of a check, no depth limit of at least 10 changes anything. */
  lemma DepthLimitNeverFires(z: Zone, ip: IpAddr, domain: string, depthLimit: nat)
    requires depthLimit >= 10
    ensures EvaluateDomain(Caps(10, depthLimit), z, ip, domain, 0, 0)
          == EvaluateDomain(SOURCE_CAPS, z, ip, domain, 0, 0)
  {
    DepthGuardIdle(SOURCE_CAPS, Caps(10, depthLimit), z, ip, domain, 0, 0);
  }

  /** An answer other than PermError is the answer of every checker with a larger lookup limit. */
  lemma OnlyPermErrorDependsOnTheLimit(z: Zone, ip: IpAddr, domain: string, lookupLimit: nat)
    requires lookupLimit >= 10
    requires EvaluateDomain(SOURCE_CAPS, z, ip, domain, 0, 0).value != PermError
    ensures EvaluateDomain(Caps(lookupLimit, 10), z, ip, domain, 0, 0)
          == EvaluateDomain(SOURCE_CAPS, z, ip, domain, 0, 0)
  {
    RaisedDomain(SOURCE_CAPS, Caps(lookupLimit, 10), z, ip, domain, 0, 0);
  }

  /** The domain's record begins by including a member of the set. */
  predicate LeadsInto(z: Zone, domain: string, members: set<string>)
    ensures LeadsInto(z, domain, members) ==> domain != []
  {
    && domain != [] && z.txt(domain).Ok?
    && var record := FindRecord(z.txt(domain).value);
       record.Some? && AfterVersion(record.value) != []
       && var term := AfterVersion(record.value)[0];
          term != [] && !(REDIRECT <= term) && !("exp=" <= term)
          && var m := ParseMechanism(z, domain, ParseQualifier(term).1);
             m.Include? && m.domain in members
  }

  /** Domains that only lead into each other, an include cycle of any length among them: whichever is asked for, the
      whole budget is spent and the answer is PermError. */
  lemma {:induction false} IncludeCycleEndsAtTheLimit(c: Caps, z: Zone, ip: IpAddr, members: set<string>,
                                                      domain: string, lookups: nat)
    requires lookups <= c.lookups && domain in members
    requires forall d :: d in members ==> LeadsInto(z, d, members)
    ensures EvaluateDomain(c, z, ip, domain, lookups, 0) == Outcome(PermError, c.lookups)
    decreases Room(c, lookups)
  {
    hide LeadsInto, Next, EvaluateDomain;
    assert LeadsInto(z, domain, members);
    if lookups >= c.lookups {
      BudgetSpent(c, z, ip, domain, lookups);
    } else {
      var inner := Next(z, domain, members);
      assert LeadsInto(z, inner, members);
      IncludeCycleEndsAtTheLimit(c, z, ip, members, inner, lookups + 1);
      Follows(c, z, ip, members, domain, lookups);
    }
  }

  lemma BudgetSpent(c: Caps, z: Zone, ip: IpAddr, domain: string, lookups: nat)
    requires lookups == c.lookups
    ensures EvaluateDomain(c, z, ip, domain, lookups, 0) == Outcome(PermError, c.lookups)
  {
  }

  /** The member a record leads to. */
  function Next(z: Zone, domain: string, members: set<string>): (inner: string)
    requires LeadsInto(z, domain, members)
    ensures inner in members
  {
    var terms := AfterVersion(FindRecord(z.txt(domain).value).value);
    ParseMechanism(z, domain, ParseQualifier(terms[0]).1).domain
  }

  /** A failing include at the head of a record decides. */
  lemma Follows(c: Caps, z: Zone, ip: IpAddr, members: set<string>, domain: string, lookups: nat)
    requires lookups < c.lookups && LeadsInto(z, domain, members) && Next(z, domain, members) != []
    requires EvaluateDomain(c, z, ip, Next(z, domain, members), lookups + 1, 0) == Outcome(PermError, c.lookups)
    ensures EvaluateDomain(c, z, ip, domain, lookups, 0) == Outcome(PermError, c.lookups)
  {
    hide FindRecord, AfterVersion, ParseMechanism, ParseQualifier;
    var terms := AfterVersion(FindRecord(z.txt(domain).value).value);
    var m := MatchMechanism(c, z, ip, domain, ParseQualifier(terms[0]).1, lookups + 1);
    FailingInclude(c, z, ip, domain, ParseQualifier(terms[0]).1, Next(z, domain, members), lookups + 1);
    hide MatchMechanism;
    assert EvaluateTerms(c, z, ip, domain, terms, None, lookups + 1, 0) == Outcome(PermError, c.lookups);
  }

  lemma FailingInclude(c: Caps, z: Zone, ip: IpAddr, domain: string, mech: string, inner: string, lookups: nat)
    requires lookups <= c.lookups && inner != [] && ParseMechanism(z, domain, mech) == Include(inner)
    requires EvaluateDomain(c, z, ip, inner, lookups, 0) == Outcome(PermError, c.lookups)
    ensures var m := MatchMechanism(c, z, ip, domain, mech, lookups);
            m.value in {PermMatch, Included(PermError)} && m.lookups == c.lookups
  {
    hide ParseMechanism, EvaluateDomain;
  }

  /** A record whose first mechanism includes its own domain. */
  lemma SelfIncludeEndsAtTheLimit(c: Caps, z: Zone, ip: IpAddr, domain: string, lookups: nat)
    requires lookups <= c.lookups && LeadsInto(z, domain, {domain})
    ensures EvaluateDomain(c, z, ip, domain, lookups, 0) == Outcome(PermError, c.lookups)
  {
    hide LeadsInto, EvaluateDomain;
    IncludeCycleEndsAtTheLimit(c, z, ip, {domain}, domain, lookups);
  }

  // ----- the evaluator -----

  datatype Query = Txt(name: string) | Address(name: string) | Exchange(name: string)

  /** The resolver, its log of calls, and the shared counter. */
  class Checker {
    const zone: Zone
    const caps: Caps
    var lookups: nat
    var asked: seq<Query>

    constructor (zone: Zone, caps: Caps)
      ensures this.zone == zone && this.caps == caps && lookups == 0 && asked == []
    {
      this.zone, this.caps := zone, caps;
      lookups, asked := 0, [];
    }

    method ResolveTxt(name: string) returns (r: Result<seq<string>, DnsError>)
      modifies this`asked
      ensures r == zone.txt(name) && asked == old(asked) + [Txt(name)]
    {
      asked := asked + [Txt(name)];
      r := zone.txt(name);
    }

    method ResolveA(name: string) returns (r: Result<seq<IpAddr>, DnsError>)
      modifies this`asked
      ensures r == zone.a(name) && asked == old(asked) + [Address(name)]
    {
      asked := asked + [Address(name)];
      r := zone.a(name);
    }

    method ResolveMx(name: string) returns (r: Result<seq<string>, DnsError>)
      modifies this`asked
      ensures r == zone.mx(name) && asked == old(asked) + [Exchange(name)]
    {
      asked := asked + [Exchange(name)];
      r := zone.mx(name);
    }

    /** Every call made is counted, and nothing else is. */
    twostate predicate Counted()
      reads this
    {
      old(asked) <= asked && |asked| - |old(asked)| == lookups - old(lookups)
    }

    method MatchA(ip: IpAddr, target: string, cidr4: U8, cidr6: U8) returns (m: Match)
      modifies this
      ensures Counted()
      ensures Outcome(m, lookups)
           == if old(lookups) >= caps.lookups then Outcome(PermMatch, old(lookups))
              else Outcome(if zone.a(target).Err? then Failed(zone.a(target).error)
                           else if Covered(ip, zone.a(target).value, cidr4, cidr6) then Yes else No, old(lookups) + 1)
    {
      if lookups >= caps.lookups {
        return PermMatch;
      }
      lookups := lookups + 1;
      var addrs := ResolveA(target);
      if addrs.Err? {
        return Failed(addrs.error);
      }
      var yes := AnyCovers(ip, addrs.value, cidr4, cidr6);
      m := if yes then Yes else No;
    }

    method MatchMx(ip: IpAddr, target: string, cidr4: U8, cidr6: U8) returns (m: Match)
      modifies this
      ensures Counted()
      ensures Outcome(m, lookups)
           == if old(lookups) >= caps.lookups then Outcome(PermMatch, old(lookups))
              else if zone.mx(target).Err? then Outcome(Failed(zone.mx(target).error), old(lookups) + 1)
              else MatchHosts(caps, zone, ip, zone.mx(target).value, cidr4, cidr6, old(lookups) + 1)
    {
      hide MatchHosts, Covers;
      if lookups >= caps.lookups {
        return PermMatch;
      }
      lookups := lookups + 1;
      var found := ResolveMx(target);
      if found.Err? {
        return Failed(found.error);
      }
      var hosts := found.value;
      assert hosts[0..] == hosts;
      for i := 0 to |hosts|
        invariant Counted()
        invariant MatchHosts(caps, zone, ip, hosts[i..], cidr4, cidr6, lookups)
               == MatchHosts(caps, zone, ip, hosts, cidr4, cidr6, old(lookups) + 1)
      {
        HostsStep(caps, zone, ip, hosts, i, cidr4, cidr6, lookups);
        if lookups >= caps.lookups {
          return PermMatch;
        }
        lookups := lookups + 1;
        var addrs := ResolveA(hosts[i]);
        if addrs.Err? {
          if addrs.error.Temp? {
            return TempMatch;
          }
          continue;
        }
        var yes := AnyCovers(ip, addrs.value, cidr4, cidr6);
        if yes {
          return Yes;
        }
      }
      assert hosts[|hosts|..] == [];
      NoHosts(caps, zone, ip, cidr4, cidr6, lookups);
      m := No;
    }

    method Match(ip: IpAddr, domain: string, mech: string) returns (m: Match)
      modifies this
      ensures Counted()
      ensures Outcome(m, lookups) == MatchMechanism(caps, zone, ip, domain, mech, old(lookups))
      decreases Room(caps, lookups), 1, 0
    {
      match ParseMechanism(zone, domain, mech) {
        case All => return Yes;
        case Ip4(network, prefix) =>
          if ip.V6? { return No; }
          if network.None? { return PermMatch; }
          return if Ipv4InNetwork(ip.bits, network.value, prefix) then Yes else No;
        case Ip6(network, prefix) =>
          if ip.V4? { return No; }
          if network.None? { return PermMatch; }
          return if Ipv6InNetwork(ip.octets, network.value, prefix) then Yes else No;
        case A(target, c4, c6) => m := MatchA(ip, target, c4, c6);
        case Mx(target, c4, c6) => m := MatchMx(ip, target, c4, c6);
        case Include(inner) =>
          if inner == [] || lookups >= caps.lookups { return PermMatch; }
          var r := Evaluate(ip, inner, 0);
          return Included(r);
        case Skipped => return No;
      }
    }

    method EvaluateRecord(ip: IpAddr, domain: string, record: string, depth: nat) returns (answer: Answer)
      modifies this
      ensures Counted()
      ensures Outcome(answer, lookups)
           == EvaluateTerms(caps, zone, ip, domain, AfterVersion(record), None, old(lookups), depth)
      decreases Room(caps, lookups), 3, 0
    {
      hide MatchMechanism, ParseQualifier, TrimDots, EvaluateDomain;
      var terms := AfterVersion(record);
      var redirect: Option<string> := None;
      assert terms[0..] == terms;
      for i := 0 to |terms|
        invariant Counted()
        invariant EvaluateTerms(caps, zone, ip, domain, terms[i..], redirect, lookups, depth)
               == EvaluateTerms(caps, zone, ip, domain, terms, None, old(lookups), depth)
      {
        var term := terms[i];
        assert terms[i..][1..] == terms[i + 1..];
        if term == [] { continue; }
        if REDIRECT <= term {
          redirect := Some(zone.lower(TrimDots(term[|REDIRECT|..])));
          continue;
        }
        if "exp=" <= term { continue; }
        var (qual, mech) := ParseQualifier(term);
        var m := Match(ip, domain, mech);
        var decided := Decision(qual, m);
        if decided.Some? {
          return decided.value;
        }
      }
      if redirect.Some? {
        if lookups >= caps.lookups {
          return PermError;
        }
        answer := Evaluate(ip, redirect.value, depth + 1);
        return;
      }
      answer := Neutral;
    }

    method Evaluate(ip: IpAddr, domain: string, depth: nat) returns (answer: Answer)
      modifies this
      ensures Counted()
      ensures Outcome(answer, lookups) == EvaluateDomain(caps, zone, ip, domain, old(lookups), depth)
      decreases Room(caps, lookups), 0, 0
    {
      hide EvaluateTerms, AfterVersion, FindRecord, IsSpf;
      if depth > caps.depth {
        return PermError;
      }
      if lookups >= caps.lookups {
        return PermError;
      }
      lookups := lookups + 1;
      var txts := ResolveTxt(domain);
      if txts.Err? {
        return if txts.error.Temp? then TempError else PermError;
      }
      var record := FindSpfRecord(txts.value);
      if record.None? {
        return NoRecord;
      }
      answer := EvaluateRecord(ip, domain, record.value, depth);
    }
  }

  /** check_spf_with, on a parsed client address: ends on every zone after at most ten resolver calls. */
  method CheckSpf(zone: Zone, ip: Option<IpAddr>, helo: string, mailFrom: string)
    returns (answer: Answer, asked: seq<Query>)
    ensures |asked| <= 10
    ensures var domain := zone.lower(TrimDots(if mailFrom == [] then helo else mailFrom));
            answer == if ip.None? then PermError else if domain == [] then NoRecord
                      else EvaluateDomain(SOURCE_CAPS, zone, ip.value, domain, 0, 0).value
  {
    if ip.None? {
      return PermError, [];
    }
    var domain := zone.lower(TrimDots(if mailFrom == [] then helo else mailFrom));
    if domain == [] {
      return NoRecord, [];
    }
    var checker := new Checker(zone, SOURCE_CAPS);
    hide EvaluateDomain;
    answer := checker.Evaluate(ip.value, domain, 0);
    asked := checker.asked;
  }
}
