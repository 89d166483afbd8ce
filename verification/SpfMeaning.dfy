/** What an SPF record answers, for records given as lists of directives with their text written out. */
module SpfMeaning {
  import opened IpNetwork
  import opened Octets
  import opened Results
  import opened Spf
  import opened SpfRecord
  import opened Text

  datatype Qualifier = Unqualified | Plus | Minus | Tilde | Question

  /** The mechanisms: networks by address and prefix length, hosts by name and two prefix lengths. */
  datatype Spec =
    | AllOf
    | Ip4Net(address: string, bits: Option<U8>)
    | Ip6Net(address: string, bits: Option<U8>)
    | HostAddresses(host: Option<string>, bits4: Option<U8>, bits6: Option<U8>)
    | HostExchangers(host: Option<string>, bits4: Option<U8>, bits6: Option<U8>)
    | IncludeOf(included: string)
    | Exists(query: string)
    | Ptr(host: Option<string>)

  /** A term of a record; the name of a mechanism in any case. */
  datatype Term =
    | Directive(qualifier: Qualifier, name: string, spec: Spec)
    | Redirect(target: string)
    | Explanation(target: string)

  datatype Record = Record(version: string, terms: seq<Term>)

  // ----- the text of a record -----

  function QualifierText(q: Qualifier): string {
    match q
    case Unqualified => ""
    case Plus => "+"
    case Minus => "-"
    case Tilde => "~"
    case Question => "?"
  }

  function NameOf(s: Spec): string {
    match s
    case AllOf => "all"
    case Ip4Net(_, _) => "ip4"
    case Ip6Net(_, _) => "ip6"
    case HostAddresses(_, _, _) => "a"
    case HostExchangers(_, _, _) => "mx"
    case IncludeOf(_) => "include"
    case Exists(_) => "exists"
    case Ptr(_) => "ptr"
  }

  function BitsText(bits: Option<U8>): string {
    if bits.None? then "" else "/" + Decimal(bits.value)
  }

  function HostText(host: Option<string>): string {
    if host.None? then "" else ":" + host.value
  }

  /** What stands behind the name. */
  function Tail(s: Spec): string {
    match s
    case AllOf => ""
    case Ip4Net(address, bits) => ":" + address + BitsText(bits)
    case Ip6Net(address, bits) => ":" + address + BitsText(bits)
    case HostAddresses(host, bits4, bits6) => HostText(host) + DualText(bits4, bits6)
    case HostExchangers(host, bits4, bits6) => HostText(host) + DualText(bits4, bits6)
    case IncludeOf(included) => ":" + included
    case Exists(query) => ":" + query
    case Ptr(host) => HostText(host)
  }

  function DualText(bits4: Option<U8>, bits6: Option<U8>): string {
    BitsText(bits4) + if bits6.None? then "" else "//" + Decimal(bits6.value)
  }

  function TermText(t: Term): string {
    match t
    case Directive(qualifier, name, spec) => QualifierText(qualifier) + (name + Tail(spec))
    case Redirect(target) => "redirect=" + target
    case Explanation(target) => "exp=" + target
  }

  function TermTexts(terms: seq<Term>): (r: seq<string>)
    ensures |r| == |terms| && forall i :: 0 <= i < |r| ==> r[i] == TermText(terms[i])
  {
    seq(|terms|, i requires 0 <= i < |terms| => TermText(terms[i]))
  }

  /** Version and terms, with one space between. */
  function RecordText(r: Record): string {
    Join([r.version] + TermTexts(r.terms), " ")
  }

  predicate NoSpace(s: string) {
    forall i :: 0 <= i < |s| ==> !IsSpace(s[i])
  }

  predicate HostName(host: Option<string>) {
    host.Some? ==> host.value != [] && host.value[0] != ':' && '/' !in host.value && NoSpace(host.value)
  }

  predicate WellFormedSpec(s: Spec) {
    match s
    case AllOf => true
    case Ip4Net(address, _) => '/' !in address && NoSpace(address)
    case Ip6Net(address, _) => '/' !in address && NoSpace(address)
    case HostAddresses(host, _, _) => HostName(host)
    case HostExchangers(host, _, _) => HostName(host)
    case IncludeOf(included) => NoSpace(included)
    case Exists(query) => NoSpace(query)
    case Ptr(host) => HostName(host)
  }

  predicate WellFormedTerm(t: Term) {
    match t
    case Directive(_, name, spec) => LowerAscii(name) == NameOf(spec) && WellFormedSpec(spec)
    case Redirect(target) => NoSpace(target)
    case Explanation(target) => NoSpace(target)
  }

  predicate WellFormed(r: Record) {
    LowerAscii(r.version) == "v=spf1" && forall i :: 0 <= i < |r.terms| ==> WellFormedTerm(r.terms[i])
  }

  /** The text begins with the version, as a word of its own. */
  predicate BearsVersion(text: string) {
    var l := LowerAscii(Trim(text));
    "v=spf1" <= l && (|l| == 6 || l[6] == ' ' || l[6] == '\t')
  }

  /** The record is the first SPF text of the domain. */
  ghost predicate Publishes(z: Zone, domain: string, r: Record) {
    z.txt(domain).Ok? &&
    exists i: nat :: i < |z.txt(domain).value| && Trim(z.txt(domain).value[i]) == RecordText(r)
                     && forall j :: 0 <= j < i ==> !BearsVersion(z.txt(domain).value[j])
  }

  // ----- what it means -----

  function AnswerOf(q: Qualifier): Answer {
    match q
    case Unqualified => Pass
    case Plus => Pass
    case Minus => Fail
    case Tilde => SoftFail
    case Question => Neutral
  }

  function AtMost(bits: Option<U8>, width: nat): (n: nat)
    ensures n <= width
  {
    if bits.Some? && bits.value < width then bits.value else width
  }

  /** Two addresses of one family agree on their first bits. */
  predicate Near(x: IpAddr, y: IpAddr, bits4: Option<U8>, bits6: Option<U8>) {
    match (x, y)
    case (V4(a), V4(b)) => SharePrefix(a, b, 32, AtMost(bits4, 32))
    case (V6(a), V6(b)) => SharePrefix(Os2ip(a), Os2ip(b), 128, AtMost(bits6, 128))
    case _ => false
  }

  ghost predicate AnyNear(ip: IpAddr, addrs: seq<IpAddr>, bits4: Option<U8>, bits6: Option<U8>) {
    exists i :: 0 <= i < |addrs| && Near(ip, addrs[i], bits4, bits6)
  }

  /** What a mechanism does to the check: it matches the client, passes it on, or ends the check. */
  datatype Effect = Matches | Misses | Stops(answer: Answer)

  function Hit(yes: bool): Effect {
    if yes then Matches else Misses
  }

  function Trouble(e: DnsError): Effect {
    Stops(if e.Temp? then TempError else PermError)
  }

  /** The exchanger has no address near the client, or none at all. */
  ghost predicate Unhelpful(z: Zone, ip: IpAddr, exchanger: string, bits4: Option<U8>, bits6: Option<U8>) {
    match z.a(exchanger)
    case Err(e) => e.Perm?
    case Ok(addrs) => !AnyNear(ip, addrs, bits4, bits6)
  }

  /** How many exchangers come before the first that settles the matter. */
  ghost function UnhelpfulAhead(z: Zone, ip: IpAddr, hosts: seq<string>, bits4: Option<U8>, bits6: Option<U8>)
      : (k: nat)
    ensures k <= |hosts| && forall j :: 0 <= j < k ==> Unhelpful(z, ip, hosts[j], bits4, bits6)
    ensures k < |hosts| ==> !Unhelpful(z, ip, hosts[k], bits4, bits6)
  {
    if hosts == [] || !Unhelpful(z, ip, hosts[0], bits4, bits6) then 0
    else 1 + UnhelpfulAhead(z, ip, hosts[1..], bits4, bits6)
  }

  /** The exchangers are asked in turn while lookups last; the first with an address near the client matches. */
  ghost function ExchangersEffect(c: Caps, z: Zone, ip: IpAddr, hosts: seq<string>, bits4: Option<U8>,
                                  bits6: Option<U8>, n: nat): Outcome<Effect>
    requires n <= c.lookups
  {
    var k := UnhelpfulAhead(z, ip, hosts, bits4, bits6);
    if n + k >= c.lookups && k < |hosts| then Outcome(Stops(PermError), c.lookups)
    else if n + k > c.lookups then Outcome(Stops(PermError), c.lookups)
    else if k == |hosts| then Outcome(Misses, n + k)
    else Outcome(if z.a(hosts[k]).Err? then Stops(TempError) else Matches, n + k + 1)
  }

  function TargetOf(z: Zone, host: Option<string>, domain: string): string {
    if host.Some? then z.lower(TrimDots(host.value)) else domain
  }

  /** The effect of a mechanism reached with n lookups made, and the lookups made after it. */
  ghost function EffectOf(c: Caps, z: Zone, ip: IpAddr, domain: string, spec: Spec, n: nat): Outcome<Effect> {
    match spec
    case AllOf => Outcome(Matches, n)
    case Ip4Net(address, bits) =>
      Outcome(if ip.V6? then Misses else if z.parse4(address).None? then Stops(PermError)
              else Hit(Near(ip, V4(z.parse4(address).value), bits, None)), n)
    case Ip6Net(address, bits) =>
      Outcome(if ip.V4? then Misses else if z.parse6(address).None? then Stops(PermError)
              else Hit(Near(ip, V6(z.parse6(address).value), None, bits)), n)
    case HostAddresses(host, bits4, bits6) =>
      if n >= c.lookups then Outcome(Stops(PermError), n)
      else
        var addrs := z.a(TargetOf(z, host, domain));
        Outcome(if addrs.Err? then Trouble(addrs.error) else Hit(AnyNear(ip, addrs.value, bits4, bits6)), n + 1)
    case HostExchangers(host, bits4, bits6) =>
      if n >= c.lookups then Outcome(Stops(PermError), n)
      else
        var hosts := z.mx(TargetOf(z, host, domain));
        if hosts.Err? then Outcome(Trouble(hosts.error), n + 1)
        else ExchangersEffect(c, z, ip, hosts.value, bits4, bits6, n + 1)
    case IncludeOf(included) =>
      var inner := z.lower(TrimDots(included));
      if inner == [] || n >= c.lookups then Outcome(Stops(PermError), n)
      else
        var r := EvaluateDomain(c, z, ip, inner, n, 0);
        Outcome(if r.value == Pass then Matches
                else if r.value in {TempError, PermError} then Stops(r.value) else Misses, r.lookups)
    case Exists(_) => Outcome(Misses, n)
    case Ptr(_) => Outcome(Misses, n)
  }

  /** The lookups made when term i is reached. */
  ghost function CounterAt(c: Caps, z: Zone, ip: IpAddr, domain: string, terms: seq<Term>, i: nat, n: nat): nat
    requires i <= |terms|
  {
    if i == 0 then n
    else
      var before := CounterAt(c, z, ip, domain, terms, i - 1, n);
      if terms[i - 1].Directive? then EffectOf(c, z, ip, domain, terms[i - 1].spec, before).lookups else before
  }

  /** The effect of directive i when it is reached. */
  ghost function EffectAt(c: Caps, z: Zone, ip: IpAddr, domain: string, terms: seq<Term>, i: nat, n: nat)
      : Outcome<Effect>
    requires i < |terms| && terms[i].Directive?
  {
    EffectOf(c, z, ip, domain, terms[i].spec, CounterAt(c, z, ip, domain, terms, i, n))
  }

  /** No directive before term i matches or ends the check. */
  ghost predicate PassedOver(c: Caps, z: Zone, ip: IpAddr, domain: string, terms: seq<Term>, i: nat, n: nat)
    requires i <= |terms|
  {
    forall j :: 0 <= j < i && terms[j].Directive? ==> EffectAt(c, z, ip, domain, terms, j, n).value == Misses
  }

  /** The target of the last redirect among the first i terms. */
  function RedirectBefore(terms: seq<Term>, i: nat): Option<string>
    requires i <= |terms|
  {
    if i == 0 then None
    else if terms[i - 1].Redirect? then Some(terms[i - 1].target) else RedirectBefore(terms, i - 1)
  }

  // ----- reading the text -----

  lemma LowerConcat(a: string, b: string)
    ensures LowerAscii(a + b) == LowerAscii(a) + LowerAscii(b)
  {
  }

  lemma StripCi(s: string, prefix: string)
    requires LowerAscii(prefix) == prefix
    ensures StripPrefixCi(s, prefix).Some? <==> prefix <= LowerAscii(s)
    ensures StripPrefixCi(s, prefix).Some? ==> StripPrefixCi(s, prefix).value == s[|prefix|..]
  {
    if |s| >= |prefix| { assert LowerAscii(s)[..|prefix|] == LowerAscii(s[..|prefix|]); }
  }

  lemma LowerNames()
    ensures LowerAscii("ip4:") == "ip4:" && LowerAscii("ip6:") == "ip6:" && LowerAscii("include:") == "include:"
    ensures LowerAscii("a") == "a" && LowerAscii("mx") == "mx"
  {
  }

  /** The branches of the mechanism parser. */
  datatype Branch = OnAll | OnIp4 | OnIp6 | OnA | OnMx | OnInclude | OnOther

  function BranchOf(l: string): Branch {
    if l == "all" then OnAll
    else if "ip4:" <= l then OnIp4
    else if "ip6:" <= l then OnIp6
    else if l == "a" || "a:" <= l || "a/" <= l then OnA
    else if l == "mx" || "mx:" <= l || "mx/" <= l then OnMx
    else if "include:" <= l then OnInclude
    else OnOther
  }

  function OnBranch(z: Zone, domain: string, mech: string, b: Branch): Mechanism
    requires b == BranchOf(LowerAscii(mech))
  {
    match b
    case OnAll => All
    case OnIp4 =>
      var (addr, prefix) := SplitCidr(mech[4..], 32);
      Ip4(z.parse4(addr), if prefix > 32 then 32 else prefix)
    case OnIp6 =>
      var (addr, prefix) := SplitCidr(mech[4..], 128);
      Ip6(z.parse6(addr), if prefix > 128 then 128 else prefix)
    case OnA =>
      var (target, c4, c6) := ParseDualCidr(z, mech, domain);
      A(target, c4, c6)
    case OnMx =>
      var (target, c4, c6) := ParseDualCidr(z, mech, domain);
      Mx(target, c4, c6)
    case OnInclude => Include(z.lower(TrimDots(mech[8..])))
    case OnOther => Skipped
  }

  /** The mechanism by its lower-case text. */
  lemma ByName(z: Zone, domain: string, mech: string)
    ensures ParseMechanism(z, domain, mech) == OnBranch(z, domain, mech, BranchOf(LowerAscii(mech)))
  {
    hide StripPrefixCi, LowerAscii, SplitCidr, ParseDualCidr, TrimDots;
    Stripped(mech);
  }

  lemma Stripped(mech: string)
    ensures var l := LowerAscii(mech);
            && StripPrefixCi(mech, "ip4:") == (if "ip4:" <= l then Some(mech[4..]) else None)
            && StripPrefixCi(mech, "ip6:") == (if "ip6:" <= l then Some(mech[4..]) else None)
            && StripPrefixCi(mech, "include:") == (if "include:" <= l then Some(mech[8..]) else None)
  {
    hide StripPrefixCi, LowerAscii;
    LowerNames();
    StripCi(mech, "ip4:");
    StripCi(mech, "ip6:");
    StripCi(mech, "include:");
  }

  function BranchFor(s: Spec): Branch {
    match s
    case AllOf => OnAll
    case Ip4Net(_, _) => OnIp4
    case Ip6Net(_, _) => OnIp6
    case HostAddresses(_, _, _) => OnA
    case HostExchangers(_, _, _) => OnMx
    case IncludeOf(_) => OnInclude
    case Exists(_) => OnOther
    case Ptr(_) => OnOther
  }

  lemma DecimalU8(n: U8, default: U8)
    ensures ParseU8(Decimal(n), default) == n && '/' !in Decimal(n) && NoSpace(Decimal(n))
  {
    DecimalValue(n);
    assert Decimal(n)[0] != '+';
  }

  lemma CidrRead(address: string, bits: Option<U8>, default: U8)
    requires '/' !in address
    ensures SplitCidr(address + BitsText(bits), default) == (address, if bits.Some? then bits.value else default)
  {
    var spec := address + BitsText(bits);
    FindAfter(address, '/', BitsText(bits));
    hide Find, ParseU8, Decimal;
    if bits.Some? {
      DecimalU8(bits.value, default);
      assert spec[..|address|] == address && spec[|address| + 1..] == Decimal(bits.value);
    } else {
      assert spec == address;
    }
  }

  function PartsOf(h: string, bits4: Option<U8>, bits6: Option<U8>): seq<string> {
    if bits6.None? then (if bits4.None? then [h] else [h, Decimal(bits4.value)])
    else if bits4.None? then [h, "", Decimal(bits6.value)]
    else [h, Decimal(bits4.value), "", Decimal(bits6.value)]
  }

  lemma JoinTwo(a: string, b: string)
    ensures Join([a, b], "/") == a + "/" + b
  {
    assert Join([b], "/") == b && [a, b][1..] == [b];
  }

  lemma JoinCons(a: string, rest: seq<string>)
    requires rest != []
    ensures Join([a] + rest, "/") == a + "/" + Join(rest, "/")
  {
    assert ([a] + rest)[1..] == rest;
  }

  lemma PartsJoined(h: string, bits4: Option<U8>, bits6: Option<U8>)
    ensures Join(PartsOf(h, bits4, bits6), "/") == h + DualText(bits4, bits6)
  {
    hide Join, Decimal;
    var d4 := if bits4.Some? then Decimal(bits4.value) else "";
    var d6 := if bits6.Some? then Decimal(bits6.value) else "";
    JoinTwo(h, d4);
    JoinTwo("", d6);
    assert "" + "/" + d6 == "/" + d6;
    JoinCons(d4, ["", d6]);
    JoinCons(h, ["", d6]);
    assert [h] + ["", d6] == [h, "", d6] && [d4] + ["", d6] == [d4, "", d6];
    JoinCons(h, [d4, "", d6]);
    assert [h] + [d4, "", d6] == [h, d4, "", d6];
    JustOne(h);
    if bits6.None? {
      assert h + DualText(bits4, bits6) == if bits4.None? then h else h + "/" + d4;
    } else if bits4.None? {
      assert h + DualText(bits4, bits6) == h + "/" + ("/" + d6);
    } else {
      assert h + DualText(bits4, bits6) == h + "/" + (d4 + "/" + ("/" + d6));
    }
  }

  lemma JustOne(h: string)
    ensures Join([h], "/") == h
  {
  }

  lemma PartsSplit(h: string, bits4: Option<U8>, bits6: Option<U8>)
    requires '/' !in h
    ensures Split(h + DualText(bits4, bits6), '/') == PartsOf(h, bits4, bits6)
  {
    hide Join, Split, Decimal, DualText, NoSpace;
    if bits4.Some? { DecimalU8(bits4.value, 32); }
    if bits6.Some? { DecimalU8(bits6.value, 128); }
    PartsJoined(h, bits4, bits6);
    SplitJoin(PartsOf(h, bits4, bits6), '/');
  }

  lemma DualStarts(bits4: Option<U8>, bits6: Option<U8>)
    ensures DualText(bits4, bits6) != [] ==> DualText(bits4, bits6)[0] == '/'
  {
    hide Decimal;
  }

  lemma ColonsOff(host: Option<string>, bits4: Option<U8>, bits6: Option<U8>)
    requires HostName(host)
    ensures TrimColons(HostText(host) + DualText(bits4, bits6))
         == (if host.Some? then host.value else "") + DualText(bits4, bits6)
  {
    hide DualText, NoSpace;
    DualStarts(bits4, bits6);
    var d := DualText(bits4, bits6);
    if host.Some? {
      OneColon(host.value + d);
      assert HostText(host) + d == ":" + (host.value + d);
    } else {
      assert HostText(host) + d == d && "" + d == d;
    }
  }

  lemma OneColon(s: string)
    requires s != [] && s[0] != ':'
    ensures TrimColons(":" + s) == s
  {
    assert (":" + s)[1..] == s;
  }

  lemma AfterName(name: string, tail: string)
    requires LowerAscii(name) in {"a", "mx"}
    ensures var mech := name + tail;
            (if StripPrefixCi(mech, "a").Some? then StripPrefixCi(mech, "a").value
             else if StripPrefixCi(mech, "mx").Some? then StripPrefixCi(mech, "mx").value
             else "") == tail
  {
    var mech := name + tail;
    LowerConcat(name, tail);
    LowerNames();
    StripCi(mech, "a");
    StripCi(mech, "mx");
    var l := LowerAscii(mech);
    assert l[0] == LowerAscii(name)[0];
    assert mech[|name|..] == tail;
    hide StripPrefixCi, LowerAscii;
  }

  function FromParts(z: Zone, parts: seq<string>, domain: string): (string, U8, U8)
    requires parts != []
  {
    (if parts[0] != [] then z.lower(TrimDots(parts[0])) else domain,
     if |parts| > 1 && parts[1] != [] then ParseU8(parts[1], 32) else 32,
     if |parts| >= 4 then ParseU8(parts[3], 128)
     else if |parts| == 3 && parts[1] == [] then ParseU8(parts[2], 128)
     else 128)
  }

  lemma DualIs(z: Zone, name: string, tail: string, domain: string)
    requires LowerAscii(name) in {"a", "mx"}
    ensures ParseDualCidr(z, name + tail, domain)
         == var rest := TrimColons(tail);
            if rest == [] then (domain, 32, 128) else FromParts(z, Split(rest, '/'), domain)
  {
    AfterName(name, tail);
    hide StripPrefixCi, TrimColons, Split, ParseU8, TrimDots, LowerAscii;
  }

  lemma PartsRead(z: Zone, h: string, bits4: Option<U8>, bits6: Option<U8>, domain: string)
    ensures FromParts(z, PartsOf(h, bits4, bits6), domain)
         == (if h != [] then z.lower(TrimDots(h)) else domain, if bits4.Some? then bits4.value else 32,
             if bits6.Some? then bits6.value else 128)
  {
    hide Decimal, ParseU8, TrimDots, NoSpace;
    if bits4.Some? { DecimalU8(bits4.value, 32); }
    if bits6.Some? { DecimalU8(bits6.value, 128); }
  }

  /** Target and prefix lengths of an a or mx mechanism. */
  lemma DualRead(z: Zone, name: string, host: Option<string>, bits4: Option<U8>, bits6: Option<U8>, domain: string)
    requires LowerAscii(name) in {"a", "mx"} && HostName(host)
    ensures ParseDualCidr(z, name + (HostText(host) + DualText(bits4, bits6)), domain)
         == (TargetOf(z, host, domain), if bits4.Some? then bits4.value else 32,
             if bits6.Some? then bits6.value else 128)
  {
    hide ParseDualCidr, TrimColons, Split, DualText, TrimDots, LowerAscii, NoSpace, PartsOf, FromParts, HostText;
    var h := if host.Some? then host.value else "";
    DualIs(z, name, HostText(host) + DualText(bits4, bits6), domain);
    ColonsOff(host, bits4, bits6);
    PartsSplit(h, bits4, bits6);
    DualSome(h, bits4, bits6);
    PartsRead(z, h, bits4, bits6, domain);
  }

  lemma DualSome(h: string, bits4: Option<U8>, bits6: Option<U8>)
    ensures h + DualText(bits4, bits6) == [] <==> h == [] && bits4.None? && bits6.None?
    ensures bits4.Some? ==> Decimal(bits4.value) != []
  {
    hide Decimal;
  }

  /** What the text of a mechanism is read as. */
  function Read(z: Zone, domain: string, s: Spec): Mechanism {
    match s
    case AllOf => All
    case Ip4Net(address, bits) => Ip4(z.parse4(address), AtMost(bits, 32))
    case Ip6Net(address, bits) => Ip6(z.parse6(address), AtMost(bits, 128))
    case HostAddresses(host, bits4, bits6) =>
      A(TargetOf(z, host, domain), if bits4.Some? then bits4.value else 32, if bits6.Some? then bits6.value else 128)
    case HostExchangers(host, bits4, bits6) =>
      Mx(TargetOf(z, host, domain), if bits4.Some? then bits4.value else 32, if bits6.Some? then bits6.value else 128)
    case IncludeOf(included) => Include(z.lower(TrimDots(included)))
    case Exists(_) => Skipped
    case Ptr(_) => Skipped
  }

  /** The lower-case text of a mechanism begins with its name and then a colon, a slash or nothing. */
  lemma LowerText(name: string, s: Spec)
    requires LowerAscii(name) == NameOf(s)
    ensures var l, n := LowerAscii(name + Tail(s)), |NameOf(s)|;
            && |l| == n + |Tail(s)| && l[..n] == NameOf(s)
            && (Tail(s) != [] ==> l[n] in {':', '/'} && l[n] == Tail(s)[0])
            && (name + Tail(s))[n..] == Tail(s)
  {
    LowerConcat(name, Tail(s));
    var l := LowerAscii(name + Tail(s));
    assert |name| == |NameOf(s)|;
    TailStarts(s);
    hide NameOf, Tail;
  }

  lemma TailStarts(s: Spec)
    ensures Tail(s) != [] ==> Tail(s)[0] in {':', '/'}
  {
    hide Decimal;
  }

  /** The name alone picks the branch. */
  lemma BranchOfText(name: string, s: Spec)
    requires LowerAscii(name) == NameOf(s)
    ensures BranchOf(LowerAscii(name + Tail(s))) == BranchFor(s)
  {
    LowerText(name, s);
    var l, n := LowerAscii(name + Tail(s)), |NameOf(s)|;
    assert l == NameOf(s) + l[n..];
    NamedBranch(s, l[n..]);
  }

  lemma NamedBranch(s: Spec, rest: string)
    requires |rest| == |Tail(s)| && (rest != [] ==> rest[0] in {':', '/'} && rest[0] == Tail(s)[0])
    ensures BranchOf(NameOf(s) + rest) == BranchFor(s)
  {
    hide Decimal, BitsText, DualText;
    var l := NameOf(s) + rest;
    assert rest != [] ==> l[|NameOf(s)|] == rest[0];
    match s
    case AllOf => assert l == "all";
    case Ip4Net(_, _) => assert l[..4] == "ip4:";
    case Ip6Net(_, _) => assert l[..4] == "ip6:" && l[0] == 'i' && l[2] == '6';
    case HostAddresses(_, _, _) => assert l[0] == 'a' && (rest != [] ==> l[1] in {':', '/'});
    case HostExchangers(_, _, _) => assert l[0] == 'm' && l[1] == 'x';
    case IncludeOf(_) => assert l[..8] == "include:" && l[0] == 'i' && l[1] == 'n';
    case Exists(_) => assert l[0] == 'e';
    case Ptr(_) => assert l[0] == 'p';
  }

  /** A mechanism's text is read as what it says. */
  lemma MechanismRead(z: Zone, domain: string, name: string, s: Spec)
    requires LowerAscii(name) == NameOf(s) && WellFormedSpec(s)
    ensures ParseMechanism(z, domain, name + Tail(s)) == Read(z, domain, s)
  {
    hide ParseMechanism, LowerAscii, SplitCidr, ParseDualCidr, BitsText, TrimDots, NoSpace, BranchOf, HostText,
         DualText, HostName;
    ByName(z, domain, name + Tail(s));
    BranchOfText(name, s);
    LowerText(name, s);
    match s
    case Ip4Net(address, bits) =>
      assert (name + Tail(s))[4..] == Tail(s)[1..] == address + BitsText(bits);
      CidrRead(address, bits, 32);
    case Ip6Net(address, bits) =>
      assert (name + Tail(s))[4..] == Tail(s)[1..] == address + BitsText(bits);
      CidrRead(address, bits, 128);
    case HostAddresses(host, bits4, bits6) => DualRead(z, name, host, bits4, bits6, domain);
    case HostExchangers(host, bits4, bits6) => DualRead(z, name, host, bits4, bits6, domain);
    case IncludeOf(included) => assert (name + Tail(s))[8..] == Tail(s)[1..] == included;
    case _ =>
  }

  // ----- matching -----

  lemma CoversIsNear(ip: IpAddr, addr: IpAddr, bits4: Option<U8>, bits6: Option<U8>)
    ensures Covers(ip, addr, if bits4.Some? then bits4.value else 32, if bits6.Some? then bits6.value else 128)
       <==> Near(ip, addr, bits4, bits6)
  {
    hide Ipv4InNetwork, Ipv6InNetwork, SharePrefix, Os2ip;
    match (ip, addr)
    case (V4(x), V4(y)) => Ipv4NetworkExact(x, y, if bits4.Some? then bits4.value else 32);
    case (V6(x), V6(y)) => Ipv6NetworkExact(x, y, if bits6.Some? then bits6.value else 128);
    case _ =>
  }

  lemma CoveredIsNear(ip: IpAddr, addrs: seq<IpAddr>, bits4: Option<U8>, bits6: Option<U8>)
    ensures Covered(ip, addrs, if bits4.Some? then bits4.value else 32, if bits6.Some? then bits6.value else 128)
       <==> AnyNear(ip, addrs, bits4, bits6)
  {
    hide Covers, Near;
    forall i | 0 <= i < |addrs|
      ensures Covers(ip, addrs[i], if bits4.Some? then bits4.value else 32, if bits6.Some? then bits6.value else 128)
         <==> Near(ip, addrs[i], bits4, bits6)
    {
      CoversIsNear(ip, addrs[i], bits4, bits6);
    }
  }

  function EffectFrom(m: Match): Effect {
    match m
    case Yes => Matches
    case No => Misses
    case TempMatch => Stops(TempError)
    case PermMatch => Stops(PermError)
    case Included(answer) =>
      if answer == Pass then Matches else if answer in {TempError, PermError} then Stops(answer) else Misses
  }

  lemma AheadStep(z: Zone, ip: IpAddr, hosts: seq<string>, bits4: Option<U8>, bits6: Option<U8>)
    requires hosts != []
    ensures UnhelpfulAhead(z, ip, hosts, bits4, bits6)
         == if Unhelpful(z, ip, hosts[0], bits4, bits6) then 1 + UnhelpfulAhead(z, ip, hosts[1..], bits4, bits6) else 0
  {
    hide Unhelpful;
  }

  /** One exchanger. */
  lemma ExchangersStep(c: Caps, z: Zone, ip: IpAddr, hosts: seq<string>, bits4: Option<U8>, bits6: Option<U8>, n: nat)
    requires hosts != [] && n <= c.lookups
    ensures ExchangersEffect(c, z, ip, hosts, bits4, bits6, n)
         == if n >= c.lookups then Outcome(Stops(PermError), n)
            else if Unhelpful(z, ip, hosts[0], bits4, bits6)
              then ExchangersEffect(c, z, ip, hosts[1..], bits4, bits6, n + 1)
            else Outcome(if z.a(hosts[0]).Err? then Stops(TempError) else Matches, n + 1)
  {
    hide Unhelpful, UnhelpfulAhead;
    AheadStep(z, ip, hosts, bits4, bits6);
  }

  lemma {:induction false} HostsEffect(c: Caps, z: Zone, ip: IpAddr, hosts: seq<string>, bits4: Option<U8>,
                                       bits6: Option<U8>, n: nat)
    requires n <= c.lookups
    ensures var m := MatchHosts(c, z, ip, hosts, if bits4.Some? then bits4.value else 32,
                                if bits6.Some? then bits6.value else 128, n);
            Outcome(EffectFrom(m.value), m.lookups) == ExchangersEffect(c, z, ip, hosts, bits4, bits6, n)
    decreases |hosts|
  {
    hide Covered, AnyNear, MatchHosts, ExchangersEffect;
    var c4: U8, c6: U8 := if bits4.Some? then bits4.value else 32, if bits6.Some? then bits6.value else 128;
    if hosts == [] {
      NoExchangers(c, z, ip, bits4, bits6, n);
    } else {
      assert hosts[0..] == hosts;
      HostsStep(c, z, ip, hosts, 0, c4, c6, n);
      ExchangersStep(c, z, ip, hosts, bits4, bits6, n);
      if z.a(hosts[0]).Ok? { CoveredIsNear(ip, z.a(hosts[0]).value, bits4, bits6); }
      if n < c.lookups { HostsEffect(c, z, ip, hosts[1..], bits4, bits6, n + 1); }
    }
  }

  lemma NoExchangers(c: Caps, z: Zone, ip: IpAddr, bits4: Option<U8>, bits6: Option<U8>, n: nat)
    requires n <= c.lookups
    ensures MatchHosts(c, z, ip, [], if bits4.Some? then bits4.value else 32,
                       if bits6.Some? then bits6.value else 128, n) == Outcome(No, n)
    ensures ExchangersEffect(c, z, ip, [], bits4, bits6, n) == Outcome(Misses, n)
  {
  }

  /** What the evaluator does with a mechanism is the effect its text stands for. */
  lemma MechanismEffect(c: Caps, z: Zone, ip: IpAddr, domain: string, name: string, s: Spec, n: nat)
    requires LowerAscii(name) == NameOf(s) && WellFormedSpec(s)
    ensures var m := MatchMechanism(c, z, ip, domain, name + Tail(s), n);
            Outcome(EffectFrom(m.value), m.lookups) == EffectOf(c, z, ip, domain, s, n)
  {
    hide ParseMechanism, LowerAscii, Tail, WellFormedSpec, EvaluateDomain, MatchHosts, ExchangersEffect, Covered,
         AnyNear, Ipv4InNetwork, Ipv6InNetwork, SharePrefix, TrimDots, Os2ip, TargetOf;
    MechanismRead(z, domain, name, s);
    match s
    case Ip4Net(address, bits) =>
      if ip.V4? && z.parse4(address).Some? { Ipv4NetworkExact(ip.bits, z.parse4(address).value, AtMost(bits, 32)); }
    case Ip6Net(address, bits) =>
      if ip.V6? && z.parse6(address).Some? { Ipv6NetworkExact(ip.octets, z.parse6(address).value, AtMost(bits, 128)); }
    case HostAddresses(host, bits4, bits6) =>
      if z.a(TargetOf(z, host, domain)).Ok? { CoveredIsNear(ip, z.a(TargetOf(z, host, domain)).value, bits4, bits6); }
    case HostExchangers(host, bits4, bits6) =>
      if n < c.lookups && z.mx(TargetOf(z, host, domain)).Ok? {
        HostsEffect(c, z, ip, z.mx(TargetOf(z, host, domain)).value, bits4, bits6, n + 1);
      }
    case _ =>
  }

  // ----- the terms -----

  lemma QualifierRead(q: Qualifier, body: string)
    requires body != [] && body[0] !in {'+', '-', '~', '?'}
    ensures ParseQualifier(QualifierText(q) + body) == (AnswerOf(q), body)
  {
    var term := QualifierText(q) + body;
    assert q.Unqualified? ==> term == body;
    assert !q.Unqualified? ==> term[0] == QualifierText(q)[0] && term[1..] == body;
  }

  lemma LowerLetter(name: string, i: nat)
    requires i < |name|
    ensures 'a' <= LowerAscii(name)[i] <= 'z' ==> 'a' <= name[i] <= 'z' || 'A' <= name[i] <= 'Z'
    ensures LowerAscii(name)[i] != 'r' ==> name[i] != 'r'
    ensures LowerAscii(name)[i] != 'e' ==> name[i] != 'e'
    ensures LowerAscii(name)[i] != 'p' ==> name[i] != 'p'
  {
  }

  lemma DirectiveHead(q: Qualifier, name: string, s: Spec)
    requires LowerAscii(name) == NameOf(s)
    ensures var body := name + Tail(s); var term := QualifierText(q) + body;
            && body != [] && body[0] !in {'+', '-', '~', '?'} && term != []
            && !(REDIRECT <= term) && !("exp=" <= term)
  {
    var term := QualifierText(q) + (name + Tail(s));
    NamesBegin(s);
    LowerLetter(name, 0);
    if s.Exists? { LowerLetter(name, 2); }
    hide LowerAscii, NameOf, Tail;
    assert term[|QualifierText(q)|] == name[0];
    if q.Unqualified? {
      assert term == name + Tail(s) && term[0] == name[0];
      if s.Exists? { assert term[2] == name[2]; }
    } else {
      assert term[0] == QualifierText(q)[0];
    }
  }

  lemma NamesBegin(s: Spec)
    ensures NameOf(s) != [] && NameOf(s)[0] in {'a', 'i', 'm', 'e', 'p'}
    ensures NameOf(s)[0] == 'e' ==> s.Exists?
    ensures s.Exists? ==> |NameOf(s)| == 6 && NameOf(s)[2] == 'i'
  {
  }

  /** The answer of a term list, by its first term. */
  ghost function Following(c: Caps, z: Zone, ip: IpAddr, domain: string, t: Term, rest: seq<string>,
                           redirect: Option<string>, n: nat, depth: nat): Outcome<Answer>
  {
    match t
    case Redirect(target) => EvaluateTerms(c, z, ip, domain, rest, Some(z.lower(TrimDots(target))), n, depth)
    case Explanation(_) => EvaluateTerms(c, z, ip, domain, rest, redirect, n, depth)
    case Directive(q, _, spec) =>
      var e := EffectOf(c, z, ip, domain, spec, n);
      match e.value
      case Matches => Outcome(AnswerOf(q), e.lookups)
      case Stops(answer) => Outcome(answer, e.lookups)
      case Misses => EvaluateTerms(c, z, ip, domain, rest, redirect, e.lookups, depth)
  }

  /** One term. */
  lemma TermStep(c: Caps, z: Zone, ip: IpAddr, domain: string, t: Term, rest: seq<string>, redirect: Option<string>,
                 n: nat, depth: nat)
    requires WellFormedTerm(t)
    ensures EvaluateTerms(c, z, ip, domain, [TermText(t)] + rest, redirect, n, depth)
         == Following(c, z, ip, domain, t, rest, redirect, n, depth)
  {
    hide MatchMechanism, EvaluateDomain, ParseQualifier, TrimDots, LowerAscii, Tail, NameOf, EffectOf, WellFormedSpec,
         QualifierText, AnswerOf;
    var terms := [TermText(t)] + rest;
    assert terms[0] == TermText(t) && terms[1..] == rest;
    match t
    case Redirect(target) => assert TermText(t)[|REDIRECT|..] == target;
    case Explanation(target) => assert TermText(t)[0] == 'e' && REDIRECT[0] == 'r';
    case Directive(q, name, spec) =>
      DirectiveHead(q, name, spec);
      QualifierRead(q, name + Tail(spec));
      MechanismEffect(c, z, ip, domain, name, spec, n);
  }

  // ----- the record -----

  predicate Word(s: string) {
    s != [] && NoSpace(s)
  }

  lemma {:induction false} WordLength(w: string, rest: string)
    requires NoSpace(w) && (rest == [] || IsSpace(rest[0]))
    ensures WordLen(w + rest) == |w|
    decreases |w|
  {
    hide IsSpace;
    if w == [] {
      assert w + rest == rest;
    } else {
      assert (w + rest)[0] == w[0] && (w + rest)[1..] == w[1..] + rest;
      WordLength(w[1..], rest);
    }
  }

  /** Words joined by one space are split into the same words. */
  lemma {:induction false} WordsRead(words: seq<string>)
    requires forall i :: 0 <= i < |words| ==> Word(words[i])
    ensures SplitWhitespace(Join(words, " ")) == words
    decreases |words|
  {
    if words == [] {
    } else {
      var w := words[0];
      if |words| == 1 {
        LastWord(w);
      } else {
        var rest := Join(words[1..], " ");
        WordsRead(words[1..]);
        FirstWord(w, rest);
        assert Join(words, " ") == w + (" " + rest);
      }
    }
  }

  lemma LastWord(w: string)
    requires Word(w)
    ensures SplitWhitespace(w) == [w]
  {
    hide IsSpace;
    WordLength(w, []);
    assert w + [] == w && w[|w|..] == [] && SplitWhitespace([]) == [];
  }

  lemma FirstWord(w: string, rest: string)
    requires Word(w)
    ensures SplitWhitespace(w + (" " + rest)) == [w] + SplitWhitespace(rest)
  {
    var s := w + (" " + rest);
    assert IsSpace(' ');
    hide IsSpace;
    WordLength(w, " " + rest);
    assert s[0] == w[0] && s[..|w|] == w && s[|w|..] == " " + rest;
    assert (" " + rest)[0] == ' ' && (" " + rest)[1..] == rest;
  }

  lemma NameIsWord(name: string, s: Spec)
    requires LowerAscii(name) == NameOf(s)
    ensures NoSpace(name)
  {
    forall i | 0 <= i < |name| ensures !IsSpace(name[i]) {
      assert LowerAscii(name)[i] == NameOf(s)[i];
    }
  }

  lemma NoSpaceConcat(a: string, b: string)
    requires NoSpace(a) && NoSpace(b)
    ensures NoSpace(a + b)
  {
    hide IsSpace;
  }

  lemma BitsIsWord(bits: Option<U8>)
    ensures NoSpace(BitsText(bits)) && (bits.Some? ==> NoSpace("//" + Decimal(bits.value)))
  {
    hide Decimal;
    if bits.Some? { DecimalU8(bits.value, 32); }
  }

  lemma HostIsWord(host: Option<string>)
    requires HostName(host)
    ensures NoSpace(HostText(host))
  {
  }

  lemma TailIsWord(s: Spec)
    requires WellFormedSpec(s)
    ensures NoSpace(Tail(s))
  {
    hide Decimal, BitsText, HostText, NoSpace, HostName;
    Colon();
    match s
    case AllOf => NoneIsWord();
    case Ip4Net(address, bits) => AddressIsWord(address, bits);
    case Ip6Net(address, bits) => AddressIsWord(address, bits);
    case HostAddresses(host, bits4, bits6) => DualIsWord(host, bits4, bits6);
    case HostExchangers(host, bits4, bits6) => DualIsWord(host, bits4, bits6);
    case IncludeOf(included) => NoSpaceConcat(":", included);
    case Exists(query) => NoSpaceConcat(":", query);
    case Ptr(host) => HostIsWord(host);
  }

  lemma Colon()
    ensures NoSpace(":")
  {
  }

  lemma NoneIsWord()
    ensures NoSpace("")
  {
  }

  lemma AddressIsWord(address: string, bits: Option<U8>)
    requires NoSpace(address)
    ensures NoSpace(":" + address + BitsText(bits))
  {
    Colon();
    hide NoSpace, BitsText;
    BitsIsWord(bits);
    NoSpaceConcat(":", address);
    NoSpaceConcat(":" + address, BitsText(bits));
  }

  lemma DualIsWord(host: Option<string>, bits4: Option<U8>, bits6: Option<U8>)
    requires HostName(host)
    ensures NoSpace(HostText(host) + DualText(bits4, bits6))
  {
    hide NoSpace, BitsText, HostText, HostName, Decimal;
    BitsIsWord(bits4);
    BitsIsWord(bits6);
    HostIsWord(host);
    NoneIsWord();
    NoSpaceConcat(BitsText(bits4), if bits6.None? then "" else "//" + Decimal(bits6.value));
    NoSpaceConcat(HostText(host), DualText(bits4, bits6));
  }

  lemma TermIsWord(t: Term)
    requires WellFormedTerm(t)
    ensures Word(TermText(t))
  {
    hide NoSpace, Tail, NameOf, LowerAscii, WellFormedSpec;
    ModifiersAreWords();
    match t
    case Redirect(target) => NoSpaceConcat("redirect=", target);
    case Explanation(target) => NoSpaceConcat("exp=", target);
    case Directive(q, name, s) =>
      DirectiveHead(q, name, s);
      NameIsWord(name, s);
      TailIsWord(s);
      NoSpaceConcat(name, Tail(s));
      QualifierIsWord(q);
      NoSpaceConcat(QualifierText(q), name + Tail(s));
  }

  lemma ModifiersAreWords()
    ensures NoSpace("redirect=") && NoSpace("exp=")
  {
  }

  lemma QualifierIsWord(q: Qualifier)
    ensures NoSpace(QualifierText(q))
  {
  }

  lemma VersionIsWord(version: string)
    requires LowerAscii(version) == "v=spf1"
    ensures Word(version)
  {
    forall i | 0 <= i < |version| ensures !IsSpace(version[i]) {
      assert LowerAscii(version)[i] == "v=spf1"[i];
    }
  }

  /** The terms come back out of the text. */
  lemma RecordRead(r: Record)
    requires WellFormed(r)
    ensures AfterVersion(RecordText(r)) == TermTexts(r.terms)
  {
    hide Word, TermText, Join, SplitWhitespace, WellFormedTerm, LowerAscii;
    var words := [r.version] + TermTexts(r.terms);
    VersionIsWord(r.version);
    forall i | 0 <= i < |words| ensures Word(words[i]) {
      if i > 0 { TermIsWord(r.terms[i - 1]); }
    }
    WordsRead(words);
  }

  lemma VersionTest(text: string)
    ensures IsSpf(text) <==> BearsVersion(text)
  {
    hide Trim, LowerAscii;
    var l := LowerAscii(Trim(text));
    if "v=spf1" <= l && |l| > 6 {
      assert l[..6] == "v=spf1";
      assert l[..7] == l[..6] + [l[6]];
    }
    if |l| == 6 && "v=spf1" <= l { assert l == "v=spf1"; }
  }

  lemma {:induction false} FirstSpfText(txts: seq<string>, i: nat)
    requires i < |txts| && BearsVersion(txts[i]) && forall j :: 0 <= j < i ==> !BearsVersion(txts[j])
    ensures FindRecord(txts) == Some(Trim(txts[i]))
  {
    hide IsSpf, BearsVersion, Trim;
    VersionTest(txts[0]);
    if i > 0 {
      FirstSpfText(txts[1..], i - 1);
    }
  }

  lemma RecordBearsVersion(r: Record, text: string)
    requires WellFormed(r) && Trim(text) == RecordText(r)
    ensures BearsVersion(text)
  {
    hide TermText, Trim, WellFormedTerm, LowerAscii;
    var words := [r.version] + TermTexts(r.terms);
    if r.terms == [] {
      assert words == [r.version];
    } else {
      assert words[1..] == TermTexts(r.terms);
      var rest := " " + Join(TermTexts(r.terms), " ");
      assert RecordText(r) == r.version + rest;
      LowerConcat(r.version, rest);
      LowerSpace(rest);
    }
  }

  lemma LowerSpace(s: string)
    requires s != [] && s[0] == ' '
    ensures LowerAscii(s)[0] == ' '
  {
  }

  lemma PublishedText(z: Zone, domain: string, r: Record)
    requires WellFormed(r) && Publishes(z, domain, r)
    ensures FindRecord(z.txt(domain).value) == Some(RecordText(r))
  {
    hide WellFormed, BearsVersion, RecordText, Trim, FindRecord;
    var txts := z.txt(domain).value;
    var i: nat :| i < |txts| && Trim(txts[i]) == RecordText(r) && forall j :: 0 <= j < i ==> !BearsVersion(txts[j]);
    RecordBearsVersion(r, txts[i]);
    FirstSpfText(txts, i);
  }

  // ----- the answer -----

  function Lowered(z: Zone, target: Option<string>): Option<string> {
    if target.None? then None else Some(z.lower(TrimDots(target.value)))
  }

  /** A term that is passed over leaves the rest to decide. */
  lemma {:induction false} Reaches(c: Caps, z: Zone, ip: IpAddr, domain: string, terms: seq<Term>, i: nat, n: nat,
                                   depth: nat)
    requires i <= |terms| && PassedOver(c, z, ip, domain, terms, i, n)
    requires forall j :: 0 <= j < |terms| ==> WellFormedTerm(terms[j])
    ensures EvaluateTerms(c, z, ip, domain, TermTexts(terms), None, n, depth)
         == EvaluateTerms(c, z, ip, domain, TermTexts(terms)[i..], Lowered(z, RedirectBefore(terms, i)),
                          CounterAt(c, z, ip, domain, terms, i, n), depth)
  {
    hide EvaluateTerms, EffectOf, WellFormedTerm, TermText, TrimDots, AnswerOf;
    var texts := TermTexts(terms);
    if i == 0 {
      assert texts[0..] == texts;
    } else {
      Reaches(c, z, ip, domain, terms, i - 1, n, depth);
      assert texts[i - 1..] == [TermText(terms[i - 1])] + texts[i..];
      var before := CounterAt(c, z, ip, domain, terms, i - 1, n);
      TermStep(c, z, ip, domain, terms[i - 1], texts[i..], Lowered(z, RedirectBefore(terms, i - 1)), before, depth);
      if terms[i - 1].Directive? { assert EffectAt(c, z, ip, domain, terms, i - 1, n).value == Misses; }
    }
  }

  lemma DomainIsTerms(c: Caps, z: Zone, ip: IpAddr, domain: string, r: Record, n: nat, depth: nat)
    requires WellFormed(r) && Publishes(z, domain, r) && n < c.lookups && depth <= c.depth
    ensures EvaluateDomain(c, z, ip, domain, n, depth)
         == EvaluateTerms(c, z, ip, domain, TermTexts(r.terms), None, n + 1, depth)
  {
    hide WellFormed, RecordText, FindRecord, AfterVersion, EvaluateTerms, TermTexts;
    PublishedText(z, domain, r);
    RecordRead(r);
  }

  /** The first directive that matches the client, or ends the check, decides: the answer is that of its qualifier, or
      the error it ends with. */
  lemma FirstDirectiveDecides(c: Caps, z: Zone, ip: IpAddr, domain: string, r: Record, i: nat, n: nat, depth: nat)
    requires WellFormed(r) && Publishes(z, domain, r) && n < c.lookups && depth <= c.depth
    requires i < |r.terms| && r.terms[i].Directive? && PassedOver(c, z, ip, domain, r.terms, i, n + 1)
    ensures var e := EffectAt(c, z, ip, domain, r.terms, i, n + 1);
            && (e.value == Matches ==>
                  EvaluateDomain(c, z, ip, domain, n, depth) == Outcome(AnswerOf(r.terms[i].qualifier), e.lookups))
            && (e.value.Stops? ==>
                  EvaluateDomain(c, z, ip, domain, n, depth) == Outcome(e.value.answer, e.lookups))
  {
    hide EvaluateTerms, EvaluateDomain, EffectOf, WellFormedTerm, TermText, TrimDots, Publishes, PassedOver, CounterAt,
         RedirectBefore, AnswerOf, Lowered;
    var terms := r.terms;
    DomainIsTerms(c, z, ip, domain, r, n, depth);
    Reaches(c, z, ip, domain, terms, i, n + 1, depth);
    assert TermTexts(terms)[i..] == [TermText(terms[i])] + TermTexts(terms)[i + 1..];
    TermStep(c, z, ip, domain, terms[i], TermTexts(terms)[i + 1..], Lowered(z, RedirectBefore(terms, i)),
             CounterAt(c, z, ip, domain, terms, i, n + 1), depth);
  }

  /** When no directive decides, the answer is that of the last redirect's domain, or neutral without one. */
  lemma NoDirectiveDecides(c: Caps, z: Zone, ip: IpAddr, domain: string, r: Record, n: nat, depth: nat)
    requires WellFormed(r) && Publishes(z, domain, r) && n < c.lookups && depth <= c.depth
    requires PassedOver(c, z, ip, domain, r.terms, |r.terms|, n + 1)
    ensures var made := CounterAt(c, z, ip, domain, r.terms, |r.terms|, n + 1);
            var redirect := RedirectBefore(r.terms, |r.terms|);
            EvaluateDomain(c, z, ip, domain, n, depth)
            == if redirect.None? then Outcome(Neutral, made)
               else if made >= c.lookups then Outcome(PermError, made)
               else EvaluateDomain(c, z, ip, z.lower(TrimDots(redirect.value)), made, depth + 1)
  {
    hide EvaluateDomain, EffectOf, WellFormedTerm, TermText, TrimDots, Publishes, PassedOver, CounterAt,
         RedirectBefore;
    DomainIsTerms(c, z, ip, domain, r, n, depth);
    Reaches(c, z, ip, domain, r.terms, |r.terms|, n + 1, depth);
    assert TermTexts(r.terms)[|r.terms|..] == [];
  }

  /** One of the two is always the case. */
  lemma {:induction false} SomethingDecides(c: Caps, z: Zone, ip: IpAddr, domain: string, terms: seq<Term>, n: nat,
                                            k: nat) returns (i: nat)
    requires k <= |terms| && PassedOver(c, z, ip, domain, terms, k, n)
    ensures k <= i <= |terms| && PassedOver(c, z, ip, domain, terms, i, n)
    ensures i < |terms| ==> terms[i].Directive? && EffectAt(c, z, ip, domain, terms, i, n).value != Misses
    decreases |terms| - k
  {
    hide EffectAt;
    if k == |terms| || (terms[k].Directive? && EffectAt(c, z, ip, domain, terms, k, n).value != Misses) {
      i := k;
    } else {
      i := SomethingDecides(c, z, ip, domain, terms, n, k + 1);
    }
  }

  // ----- records of networks -----

  /** A mechanism that needs no lookup, with an address that can be read. */
  predicate NetworkSpec(z: Zone, s: Spec) {
    match s
    case AllOf => true
    case Ip4Net(address, _) => z.parse4(address).Some?
    case Ip6Net(address, _) => z.parse6(address).Some?
    case _ => false
  }

  predicate InNetwork(z: Zone, ip: IpAddr, s: Spec) {
    match s
    case AllOf => true
    case Ip4Net(address, bits) => z.parse4(address).Some? && Near(ip, V4(z.parse4(address).value), bits, None)
    case Ip6Net(address, bits) => z.parse6(address).Some? && Near(ip, V6(z.parse6(address).value), None, bits)
    case _ => false
  }

  predicate NetworkTerm(z: Zone, t: Term) {
    t.Directive? && NetworkSpec(z, t.spec)
  }

  predicate HoldsClient(z: Zone, ip: IpAddr, t: Term) {
    t.Directive? && InNetwork(z, ip, t.spec)
  }

  lemma NetworkEffect(c: Caps, z: Zone, ip: IpAddr, domain: string, s: Spec, n: nat)
    requires NetworkSpec(z, s)
    ensures EffectOf(c, z, ip, domain, s, n) == Outcome(Hit(InNetwork(z, ip, s)), n)
  {
    hide SharePrefix, Os2ip;
  }

  lemma {:induction false} NetworksPassed(c: Caps, z: Zone, ip: IpAddr, domain: string, terms: seq<Term>, i: nat,
                                          n: nat)
    requires i <= |terms| && forall j :: 0 <= j < i ==> NetworkTerm(z, terms[j]) && !HoldsClient(z, ip, terms[j])
    ensures PassedOver(c, z, ip, domain, terms, i, n) && CounterAt(c, z, ip, domain, terms, i, n) == n
  {
    hide EffectOf, InNetwork, NetworkSpec;
    if i > 0 {
      NetworksPassed(c, z, ip, domain, terms, i - 1, n);
      assert NetworkTerm(z, terms[i - 1]);
      NetworkEffect(c, z, ip, domain, terms[i - 1].spec, n);
    }
  }

  lemma NetworkDecides(z: Zone, ip: IpAddr, domain: string, r: Record, i: nat)
    requires WellFormed(r) && Publishes(z, domain, r) && i < |r.terms| && NetworkTerm(z, r.terms[i])
    requires PassedOver(SOURCE_CAPS, z, ip, domain, r.terms, i, 1) && HoldsClient(z, ip, r.terms[i])
    ensures EvaluateDomain(SOURCE_CAPS, z, ip, domain, 0, 0).value == AnswerOf(r.terms[i].qualifier)
  {
    hide EvaluateDomain, EffectOf, WellFormed, Publishes, PassedOver, CounterAt, InNetwork, NetworkSpec, AnswerOf;
    NetworkEffect(SOURCE_CAPS, z, ip, domain, r.terms[i].spec, CounterAt(SOURCE_CAPS, z, ip, domain, r.terms, i, 1));
    FirstDirectiveDecides(SOURCE_CAPS, z, ip, domain, r, i, 0, 0);
  }

  lemma NoNetworkDecides(z: Zone, ip: IpAddr, domain: string, r: Record)
    requires WellFormed(r) && Publishes(z, domain, r) && forall j :: 0 <= j < |r.terms| ==> r.terms[j].Directive?
    requires PassedOver(SOURCE_CAPS, z, ip, domain, r.terms, |r.terms|, 1)
    ensures EvaluateDomain(SOURCE_CAPS, z, ip, domain, 0, 0).value == Neutral
  {
    hide EvaluateDomain, EffectOf, WellFormed, Publishes, PassedOver, CounterAt, RedirectBefore, TrimDots;
    NoRedirect(r.terms, |r.terms|);
    NoDirectiveDecides(SOURCE_CAPS, z, ip, domain, r, 0, 0);
  }

  /** A record of networks answers by the first that holds the client: pass, fail, soft fail or neutral as its
      qualifier says, and neutral when none does. */
  lemma NetworksAnswer(z: Zone, ip: IpAddr, domain: string, r: Record, i: nat)
    requires WellFormed(r) && Publishes(z, domain, r) && i <= |r.terms|
    requires forall j :: 0 <= j < |r.terms| ==> NetworkTerm(z, r.terms[j])
    requires forall j :: 0 <= j < i ==> !HoldsClient(z, ip, r.terms[j])
    requires i < |r.terms| ==> HoldsClient(z, ip, r.terms[i])
    ensures EvaluateDomain(SOURCE_CAPS, z, ip, domain, 0, 0).value
         == if i == |r.terms| then Neutral
            else match r.terms[i].qualifier
                 case Unqualified => Pass
                 case Plus => Pass
                 case Minus => Fail
                 case Tilde => SoftFail
                 case Question => Neutral
  {
    hide EvaluateDomain, WellFormed, Publishes, PassedOver, InNetwork, NetworkSpec;
    NetworksPassed(SOURCE_CAPS, z, ip, domain, r.terms, i, 1);
    if i < |r.terms| {
      NetworkDecides(z, ip, domain, r, i);
    } else {
      NoNetworkDecides(z, ip, domain, r);
    }
  }

  lemma {:induction false} NoRedirect(terms: seq<Term>, i: nat)
    requires i <= |terms| && forall j :: 0 <= j < i ==> terms[j].Directive?
    ensures RedirectBefore(terms, i) == None
  {
    if i > 0 {
      NoRedirect(terms, i - 1);
    }
  }
}
