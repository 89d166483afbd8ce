/** One delivery attempt of a queued message (try_deliver of src/queue.rs). */
module Delivery {
  /** What a session with a domain's hosts, or with the smarthost, answers for its recipients. */
  datatype Answer = Accepted | Temporary | Permanent

  datatype DeliverResult = Success | TempFail(remaining: seq<string>) | PermFail

  /** Direct delivery: a permanent failure without a domain, the domain's answer otherwise. */
  function DirectFate(domainOf: string -> string, answers: string -> Answer): string -> Answer {
    r => if domainOf(r) == [] then Permanent else answers(domainOf(r))
  }

  /** Through a smarthost every recipient shares one answer. */
  function SharedFate(answer: Answer): string -> Answer {
    r => answer
  }

  /** {r} if the condition holds. */
  function One(r: string, b: bool): multiset<string> {
    if b then multiset{r} else multiset{}
  }

  /** The recipients with a given fate, each as often as it occurs. */
  function Fated(rs: seq<string>, fate: string -> Answer, a: Answer): multiset<string> {
    if rs == [] then multiset{}
    else Fated(rs[..|rs| - 1], fate, a)
         + One(rs[|rs| - 1], fate(rs[|rs| - 1]) == a)
  }

  lemma FatedSnoc(rs: seq<string>, r: string, fate: string -> Answer, a: Answer)
    ensures Fated(rs + [r], fate, a) == Fated(rs, fate, a) + One(r, fate(r) == a)
  {
    assert (rs + [r])[..|rs|] == rs;
  }

  /** Of a recipient with that fate every occurrence, of any other none. */
  lemma {:induction false} FatedCount(rs: seq<string>, fate: string -> Answer, a: Answer, r: string)
    ensures Fated(rs, fate, a)[r] == if fate(r) == a then multiset(rs)[r] else 0
    decreases |rs|
  {
    hide One;
    if rs == [] {
    } else {
      var n := |rs| - 1;
      FatedCount(rs[..n], fate, a, r);
      OneCount(rs[n], fate(rs[n]) == a, r);
      SnocCount(rs[..n], rs[n], r);
      assert rs == rs[..n] + [rs[n]];
    }
  }

  lemma OneCount(x: string, b: bool, r: string)
    ensures One(x, b)[r] == if b && x == r then 1 else 0
  {
  }

  lemma SnocCount(s: seq<string>, x: string, r: string)
    ensures multiset(s + [x])[r] == multiset(s)[r] + if x == r then 1 else 0
  {
    MultisetSnoc(s, x);
  }

  lemma MultisetSnoc<T>(s: seq<T>, r: T)
    ensures multiset(s + [r]) == multiset(s) + multiset{r}
  {
  }

  lemma MultisetAssoc<T>(a: multiset<T>, b: multiset<T>, c: multiset<T>)
    ensures (a + b) + c == a + (b + c)
  {
  }

  /** Adding one element to one of three parts adds it to the sum. */
  lemma AddToPart(a: multiset<string>, b: multiset<string>, c: multiset<string>, r: string, fate: Answer)
    ensures (a + One(r, fate == Accepted)) + (b + One(r, fate == Temporary)) + (c + One(r, fate == Permanent))
         == (a + b + c) + multiset{r}
  {
  }

  /** Every recipient has exactly one fate. */
  lemma {:induction false} FatesPartition(rs: seq<string>, fate: string -> Answer)
    ensures multiset(rs) == Fated(rs, fate, Accepted)
                          + Fated(rs, fate, Temporary)
                          + Fated(rs, fate, Permanent)
    decreases |rs|
  {
    if rs == [] {
    } else {
      var seen, r := rs[..|rs| - 1], rs[|rs| - 1];
      assert rs == seen + [r];
      hide Fated, One;
      FatesPartition(seen, fate);
      FatedSnoc(seen, r, fate, Accepted);
      FatedSnoc(seen, r, fate, Temporary);
      FatedSnoc(seen, r, fate, Permanent);
      AddToPart(Fated(seen, fate, Accepted), Fated(seen, fate, Temporary),
                Fated(seen, fate, Permanent), r, fate(r));
      MultisetSnoc(seen, r);
    }
  }

  // ----- grouping by domain -----

  type Group = (string, seq<string>)

  /** The recipients of a group, if its domain gets answer a. */
  function Part(g: Group, answers: string -> Answer, a: Answer): multiset<string> {
    if answers(g.0) == a then multiset(g.1) else multiset{}
  }

  /** Recipients of all groups whose domain gets answer a. */
  function GroupSum(gs: seq<Group>, answers: string -> Answer, a: Answer): multiset<string> {
    if gs == [] then multiset{} else GroupSum(gs[..|gs| - 1], answers, a) + Part(gs[|gs| - 1], answers, a)
  }

  lemma GroupAppend(gs: seq<Group>, domain: string, r: string, answers: string -> Answer, a: Answer)
    ensures GroupSum(gs + [(domain, [r])], answers, a)
         == GroupSum(gs, answers, a) + One(r, answers(domain) == a)
  {
    assert (gs + [(domain, [r])])[..|gs|] == gs;
    assert multiset([r]) == multiset{r};
  }

  lemma {:induction false} GroupJoin(gs: seq<Group>, i: nat, r: string, answers: string -> Answer, a: Answer)
    requires i < |gs|
    ensures GroupSum(gs[i := (gs[i].0, gs[i].1 + [r])], answers, a)
         == GroupSum(gs, answers, a) + One(r, answers(gs[i].0) == a)
    decreases |gs|
  {
    var n := |gs| - 1;
    var g := (gs[i].0, gs[i].1 + [r]);
    MultisetSnoc(gs[i].1, r);
    if i == n {
      assert gs[i := g][..n] == gs[..n];
      MultisetAssoc(GroupSum(gs[..n], answers, a), Part(gs[n], answers, a), One(r, answers(gs[i].0) == a));
    } else {
      assert gs[i := g][..n] == gs[..n][i := g];
      GroupJoin(gs[..n], i, r, answers, a);
      SwapLast(GroupSum(gs[..n], answers, a), One(r, answers(gs[i].0) == a), Part(gs[n], answers, a));
    }
  }

  lemma SwapLast<T>(a: multiset<T>, b: multiset<T>, c: multiset<T>)
    ensures (a + b) + c == (a + c) + b
  {
  }

  /** The recipients of one domain, in order. */
  function WithDomain(rs: seq<string>, domainOf: string -> string, domain: string): seq<string> {
    if rs == [] then [] else
      WithDomain(rs[..|rs| - 1], domainOf, domain)
      + if domainOf(rs[|rs| - 1]) == domain then [rs[|rs| - 1]] else []
  }

  lemma DomainSnoc(rs: seq<string>, r: string, domainOf: string -> string)
    ensures forall domain :: WithDomain(rs + [r], domainOf, domain)
                          == WithDomain(rs, domainOf, domain) + if domainOf(r) == domain then [r] else []
  {
    assert (rs + [r])[..|rs|] == rs;
  }

  /** One group per domain with its recipients in order, and the recipients without a domain. */
  ghost predicate ByDomain(rs: seq<string>, gs: seq<Group>, bad: seq<string>, domainOf: string -> string) {
    && bad == WithDomain(rs, domainOf, [])
    && (forall j :: 0 <= j < |gs| ==> gs[j].1 == WithDomain(rs, domainOf, gs[j].0))
    && (forall i, j :: 0 <= i < j < |gs| ==> gs[i].0 != gs[j].0)
    && (forall domain :: domain != [] && WithDomain(rs, domainOf, domain) != [] ==> HasGroup(gs, domain))
  }

  ghost predicate HasGroup(gs: seq<Group>, domain: string) {
    exists j :: 0 <= j < |gs| && gs[j].0 == domain
  }

  /** A recipient without a domain, with a group, or with a new one. */
  lemma ByDomainStep(rs: seq<string>, r: string, gs: seq<Group>, bad: seq<string>, domainOf: string -> string, j: nat)
    requires ByDomain(rs, gs, bad, domainOf) && j <= |gs|
    requires forall i :: 0 <= i < j ==> gs[i].0 != domainOf(r)
    requires j < |gs| ==> gs[j].0 == domainOf(r)
    requires forall i :: 0 <= i < |gs| ==> gs[i].0 != []
    ensures domainOf(r) == [] ==> ByDomain(rs + [r], gs, bad + [r], domainOf)
    ensures domainOf(r) != [] && j < |gs| ==> ByDomain(rs + [r], gs[j := (gs[j].0, gs[j].1 + [r])], bad, domainOf)
    ensures domainOf(r) != [] && j == |gs| ==> ByDomain(rs + [r], gs + [(domainOf(r), [r])], bad, domainOf)
  {
    hide WithDomain;
    DomainSnoc(rs, r, domainOf);
    var domain := domainOf(r);
    if domain != [] && j == |gs| {
      assert !HasGroup(gs, domain);
      var gs' := gs + [(domain, [r])];
      forall d | d != [] && WithDomain(rs + [r], domainOf, d) != [] ensures HasGroup(gs', d) {
        if d == domain {
          assert gs'[|gs|].0 == d;
        } else {
          var i :| 0 <= i < |gs| && gs[i].0 == d;
          assert gs'[i].0 == d;
        }
      }
    } else if domain != [] {
      var gs' := gs[j := (gs[j].0, gs[j].1 + [r])];
      forall d | d != [] && WithDomain(rs + [r], domainOf, d) != [] ensures HasGroup(gs', d) {
        if d == domain {
          assert gs'[j].0 == d;
        } else {
          var i :| 0 <= i < |gs| && gs[i].0 == d;
          assert gs'[i].0 == d;
        }
      }
    }
  }

  /** The groups and the recipients without a domain hold what has been seen so far. */
  ghost predicate Grouped(seen: seq<string>, gs: seq<Group>, bad: seq<string>,
                          domainOf: string -> string, answers: string -> Answer) {
    var fate := DirectFate(domainOf, answers);
    && (forall j :: 0 <= j < |gs| ==> gs[j].1 != [] && gs[j].0 != [])
    && ByDomain(seen, gs, bad, domainOf)
    && Fated(seen, fate, Accepted) == GroupSum(gs, answers, Accepted)
    && Fated(seen, fate, Temporary) == GroupSum(gs, answers, Temporary)
    && Fated(seen, fate, Permanent) == GroupSum(gs, answers, Permanent) + multiset(bad)
  }

  method GroupByDomain(rs: seq<string>, domainOf: string -> string, ghost answers: string -> Answer)
    returns (gs: seq<Group>, bad: seq<string>)
    ensures Grouped(rs, gs, bad, domainOf, answers)
  {
    gs, bad := [], [];
    NothingGrouped(domainOf, answers);
    hide Grouped;
    for i := 0 to |rs|
      invariant Grouped(rs[..i], gs, bad, domainOf, answers)
    {
      gs, bad := PlaceRecipient(rs[..i], rs[i], gs, bad, domainOf, answers);
      assert rs[..i + 1] == rs[..i] + [rs[i]];
    }
    assert rs[..|rs|] == rs;
  }

  lemma NothingGrouped(domainOf: string -> string, answers: string -> Answer)
    ensures Grouped([], [], [], domainOf, answers)
  {
  }

  method PlaceRecipient(ghost seen: seq<string>, r: string, gs: seq<Group>, bad: seq<string>,
                        domainOf: string -> string, ghost answers: string -> Answer)
    returns (gs': seq<Group>, bad': seq<string>)
    requires Grouped(seen, gs, bad, domainOf, answers)
    ensures Grouped(seen + [r], gs', bad', domainOf, answers)
  {
    hide Grouped;
    gs', bad' := gs, bad;
    var domain := domainOf(r);
    if domain == [] {
      GroupedWithout(seen, r, gs, bad, domainOf, answers);
      bad' := bad + [r];
      return;
    }
    var j := 0;
    while j < |gs| && gs[j].0 != domain
      invariant 0 <= j <= |gs| && forall i :: 0 <= i < j ==> gs[i].0 != domain
    {
      j := j + 1;
    }
    GroupedWith(seen, r, gs, bad, domainOf, answers, j);
    if j < |gs| {
      gs' := gs[j := (gs[j].0, gs[j].1 + [r])];
    } else {
      gs' := gs + [(domain, [r])];
    }
  }

  lemma GroupedWithout(seen: seq<string>, r: string, gs: seq<Group>, bad: seq<string>,
                       domainOf: string -> string, answers: string -> Answer)
    requires Grouped(seen, gs, bad, domainOf, answers) && domainOf(r) == []
    ensures Grouped(seen + [r], gs, bad + [r], domainOf, answers)
  {
    hide Fated, GroupSum, One, ByDomain;
    var fate := DirectFate(domainOf, answers);
    assert fate(r) == Permanent;
    FatedSnoc(seen, r, fate, Accepted);
    FatedSnoc(seen, r, fate, Temporary);
    FatedSnoc(seen, r, fate, Permanent);
    var a, b, c := GroupSum(gs, answers, Accepted), GroupSum(gs, answers, Temporary), GroupSum(gs, answers, Permanent);
    assert ByDomain(seen + [r], gs, bad + [r], domainOf) by { ByDomainStep(seen, r, gs, bad, domainOf, |gs|); }
    NotPlaced(r, bad, c);
    NothingAdded(r, a, b);
    hide DirectFate;
    assert Fated(seen + [r], fate, Permanent) == c + multiset(bad + [r]);
  }

  /** In the group of its domain, or in a new one at the end. */
  lemma GroupedWith(seen: seq<string>, r: string, gs: seq<Group>, bad: seq<string>,
                    domainOf: string -> string, answers: string -> Answer, j: nat)
    requires Grouped(seen, gs, bad, domainOf, answers) && domainOf(r) != [] && j <= |gs|
    requires forall i :: 0 <= i < j ==> gs[i].0 != domainOf(r)
    requires j < |gs| ==> gs[j].0 == domainOf(r)
    ensures j < |gs| ==> Grouped(seen + [r], gs[j := (gs[j].0, gs[j].1 + [r])], bad, domainOf, answers)
    ensures j == |gs| ==> Grouped(seen + [r], gs + [(domainOf(r), [r])], bad, domainOf, answers)
  {
    hide Fated, GroupSum, One, ByDomain;
    var fate, domain := DirectFate(domainOf, answers), domainOf(r);
    FatedSnoc(seen, r, fate, Accepted);
    FatedSnoc(seen, r, fate, Temporary);
    FatedSnoc(seen, r, fate, Permanent);
    ByDomainStep(seen, r, gs, bad, domainOf, j);
    SwapLast(GroupSum(gs, answers, Permanent), multiset(bad), One(r, answers(domain) == Permanent));
    if j < |gs| {
      GroupJoin(gs, j, r, answers, Accepted);
      GroupJoin(gs, j, r, answers, Temporary);
      GroupJoin(gs, j, r, answers, Permanent);
    } else {
      GroupAppend(gs, domain, r, answers, Accepted);
      GroupAppend(gs, domain, r, answers, Temporary);
      GroupAppend(gs, domain, r, answers, Permanent);
    }
  }

  lemma NotPlaced(r: string, bad: seq<string>, never: multiset<string>)
    ensures (never + multiset(bad)) + One(r, true) == never + multiset(bad + [r])
  {
    MultisetSnoc(bad, r);
    MultisetAssoc(never, multiset(bad), multiset{r});
  }

  lemma NothingAdded(r: string, a: multiset<string>, b: multiset<string>)
    ensures a + One(r, false) == a && b + One(r, false) == b
  {
  }

  /** One session per domain. */
  method DeliverGroups(gs: seq<Group>, bad: seq<string>, answers: string -> Answer)
    returns (sent: seq<string>, remaining: seq<string>, failed: seq<string>, anyOk: bool)
    requires forall j :: 0 <= j < |gs| ==> gs[j].1 != []
    ensures multiset(sent) == GroupSum(gs, answers, Accepted)
    ensures multiset(remaining) == GroupSum(gs, answers, Temporary)
    ensures multiset(failed) == GroupSum(gs, answers, Permanent) + multiset(bad)
    ensures anyOk <==> sent != []
  {
    sent, remaining, failed, anyOk := [], [], bad, false;
    assert gs[..0] == [];
    for i := 0 to |gs|
      invariant multiset(sent) == GroupSum(gs[..i], answers, Accepted)
      invariant multiset(remaining) == GroupSum(gs[..i], answers, Temporary)
      invariant multiset(failed) == GroupSum(gs[..i], answers, Permanent) + multiset(bad)
      invariant anyOk <==> sent != []
    {
      GroupStep(gs, i, answers);
      hide GroupSum;
      match answers(gs[i].0)
      case Accepted => anyOk := true; sent := sent + gs[i].1;
      case Temporary => remaining := remaining + gs[i].1;
      case Permanent =>
        SwapLast(GroupSum(gs[..i], answers, Permanent), multiset(bad), multiset(gs[i].1));
        failed := failed + gs[i].1;
    }
    assert gs[..|gs|] == gs;
  }

  lemma GroupStep(gs: seq<Group>, i: nat, answers: string -> Answer)
    requires i < |gs|
    ensures forall a :: GroupSum(gs[..i + 1], answers, a)
                     == if answers(gs[i].0) == a then GroupSum(gs[..i], answers, a) + multiset(gs[i].1)
                        else GroupSum(gs[..i], answers, a)
  {
    assert gs[..i + 1][..i] == gs[..i];
    assert forall m: multiset<string> :: m + multiset{} == m;
  }

  /** Which result an attempt has, by the fates of the recipients. */
  ghost predicate AttemptResult(result: DeliverResult, rs: seq<string>, sent: seq<string>, bounced: seq<string>,
                                fate: string -> Answer) {
    var later, never := Fated(rs, fate, Temporary), Fated(rs, fate, Permanent);
    if never == multiset(rs) then
      result == PermFail && sent == [] && bounced == []
    else
      && multiset(sent) == Fated(rs, fate, Accepted) && multiset(bounced) == never
      && (if later == multiset{} then result == Success
          else result.TempFail? && multiset(result.remaining) == later)
  }

  /** Direct delivery; `bounced` is what the attempt itself hands to bounce_message. */
  method DeliverDirect(rs: seq<string>, domainOf: string -> string, answers: string -> Answer)
    returns (result: DeliverResult, sent: seq<string>, bounced: seq<string>)
    ensures AttemptResult(result, rs, sent, bounced, DirectFate(domainOf, answers))
  {
    hide *;
    ghost var fate := DirectFate(domainOf, answers);
    if rs == [] {
      NobodyToSendTo(fate);
      return PermFail, [], [];
    }
    var gs, bad := GroupByDomain(rs, domainOf, answers);
    GroupedSums(rs, gs, bad, domainOf, answers);
    var remaining, failed, anyOk;
    sent, remaining, failed, anyOk := DeliverGroups(gs, bad, answers);
    DirectOutcome(rs, sent, remaining, failed, fate);
    bounced := [];
    if failed != [] {
      if remaining == [] && !anyOk {
        return PermFail, [], [];
      }
      bounced := failed;
    }
    result := if remaining == [] then Success else TempFail(remaining);
  }

  lemma NobodyToSendTo(fate: string -> Answer)
    ensures AttemptResult(PermFail, [], [], [], fate)
  {
  }

  lemma GroupedSums(rs: seq<string>, gs: seq<Group>, bad: seq<string>, domainOf: string -> string,
                    answers: string -> Answer)
    requires Grouped(rs, gs, bad, domainOf, answers)
    ensures forall j :: 0 <= j < |gs| ==> gs[j].1 != []
    ensures var fate := DirectFate(domainOf, answers);
            && Fated(rs, fate, Accepted) == GroupSum(gs, answers, Accepted)
            && Fated(rs, fate, Temporary) == GroupSum(gs, answers, Temporary)
            && Fated(rs, fate, Permanent) == GroupSum(gs, answers, Permanent) + multiset(bad)
  {
    hide Fated, GroupSum, ByDomain;
  }

  /** The result by what was sent, remains and failed. */
  lemma DirectOutcome(rs: seq<string>, sent: seq<string>, remaining: seq<string>, failed: seq<string>,
                      fate: string -> Answer)
    requires rs != [] && multiset(sent) == Fated(rs, fate, Accepted)
    requires multiset(remaining) == Fated(rs, fate, Temporary) && multiset(failed) == Fated(rs, fate, Permanent)
    ensures failed != [] && remaining == [] && sent == [] ==> AttemptResult(PermFail, rs, [], [], fate)
    ensures failed == [] || remaining != [] || sent != [] ==>
              AttemptResult(if remaining == [] then Success else TempFail(remaining), rs, sent, failed, fate)
  {
    hide Fated;
    FatesPartition(rs, fate);
    MultisetEmpty(rs);
    MultisetEmpty(sent);
    MultisetEmpty(remaining);
    MultisetEmpty(failed);
    OnlyThird(multiset(sent), multiset(remaining), multiset(failed));
  }

  lemma OnlyThird(a: multiset<string>, b: multiset<string>, c: multiset<string>)
    ensures a + b + c == c <==> a == multiset{} && b == multiset{}
  {
    if a + b + c == c {
      assert |a + b + c| == |a| + |b| + |c|;
    }
  }

  lemma MultisetEmpty(s: seq<string>)
    ensures multiset(s) == multiset{} <==> s == []
    ensures |multiset(s)| == |s|
  {
    if s != [] { assert s[0] in multiset(s); }
  }

  /** Through a smarthost. */
  method DeliverViaSmarthost(rs: seq<string>, answer: Answer)
    returns (result: DeliverResult, sent: seq<string>, bounced: seq<string>)
    ensures AttemptResult(result, rs, sent, bounced, SharedFate(answer))
  {
    SharedFates(rs, answer, Accepted);
    SharedFates(rs, answer, Temporary);
    SharedFates(rs, answer, Permanent);
    hide Fated;
    MultisetEmpty(rs);
    if rs == [] { return PermFail, [], []; }
    match answer
    case Accepted => return Success, rs, [];
    case Temporary => return TempFail(rs), [], [];
    case Permanent => return PermFail, [], [];
  }

  lemma {:induction false} SharedFates(rs: seq<string>, answer: Answer, a: Answer)
    ensures Fated(rs, SharedFate(answer), a) == if a == answer then multiset(rs) else multiset{}
    decreases |rs|
  {
    if rs == [] {
    } else {
      SharedFates(rs[..|rs| - 1], answer, a);
      MultisetSnoc(rs[..|rs| - 1], rs[|rs| - 1]);
      assert rs == rs[..|rs| - 1] + [rs[|rs| - 1]];
    }
  }

  /** Nothing is lost or doubled by an attempt: sent, bounced, kept or (on PermFail) all left to the caller. */
  lemma AttemptConserves(result: DeliverResult, rs: seq<string>, sent: seq<string>, bounced: seq<string>,
                         fate: string -> Answer)
    requires AttemptResult(result, rs, sent, bounced, fate)
    ensures multiset(rs) == multiset(sent) + multiset(bounced)
                          + match result
                            case Success => multiset{}
                            case TempFail(remaining) => multiset(remaining)
                            case PermFail => multiset(rs)
    ensures result.TempFail? ==> result.remaining != []
  {
    FatesPartition(rs, fate);
    if result.TempFail? { MultisetEmpty(result.remaining); }
  }
}
