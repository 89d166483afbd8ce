/** The text of an SPF record: terms, qualifiers and mechanisms. */
module SpfRecord {
  import opened IpNetwork
  import opened Results
  import opened Text

  datatype Answer = Pass | Fail | SoftFail | Neutral | NoRecord | TempError | PermError

  datatype IpAddr = V4(bits: U32) | V6(octets: V6Octets)

  datatype DnsError = Temp | Perm

  /** A fixed snapshot of the DNS, and the library's address parsers and lower-casing. */
  datatype Zone = Zone(
    txt: string -> Result<seq<string>, DnsError>,
    a: string -> Result<seq<IpAddr>, DnsError>,
    mx: string -> Result<seq<string>, DnsError>,
    parse4: string -> Option<U32>,
    parse6: string -> Option<V6Octets>,
    lower: string -> string)

  datatype Mechanism =
    | All
    | Ip4(network: Option<U32>, prefix: U8)
    | Ip6(network6: Option<V6Octets>, prefix: U8)
    | A(target: string, cidr4: U8, cidr6: U8)
    | Mx(target: string, cidr4: U8, cidr6: U8)
    | Include(domain: string)
    | Skipped

  function TrimColons(s: string): string {
    if s != [] && s[0] == ':' then TrimColons(s[1..]) else s
  }

  function WordLen(s: string): (n: nat)
    ensures n <= |s|
    ensures s != [] && !IsSpace(s[0]) ==> n > 0
  {
    if s == [] || IsSpace(s[0]) then 0 else 1 + WordLen(s[1..])
  }

  function SplitWhitespace(s: string): seq<string>
    decreases |s|
  {
    if s == [] then []
    else if IsSpace(s[0]) then SplitWhitespace(s[1..])
    else [s[..WordLen(s)]] + SplitWhitespace(s[WordLen(s)..])
  }

  predicate IsSpf(text: string) {
    var l := LowerAscii(Trim(text));
    l == "v=spf1" || "v=spf1 " <= l || "v=spf1\t" <= l
  }

  function FindRecord(txts: seq<string>): Option<string> {
    if txts == [] then None else if IsSpf(txts[0]) then Some(Trim(txts[0])) else FindRecord(txts[1..])
  }

  method FindSpfRecord(txts: seq<string>) returns (r: Option<string>)
    ensures r == FindRecord(txts)
    ensures r.Some? <==> exists t :: t in txts && IsSpf(t)
  {
    hide IsSpf, Trim;
    assert txts[0..] == txts;
    for i := 0 to |txts|
      invariant FindRecord(txts[i..]) == FindRecord(txts)
      invariant forall j :: 0 <= j < i ==> !IsSpf(txts[j])
    {
      assert txts[i..][1..] == txts[i + 1..];
      if IsSpf(txts[i]) {
        assert txts[i] in txts;
        return Some(Trim(txts[i]));
      }
    }
    r := None;
  }

  function ParseQualifier(term: string): (Answer, string) {
    if term == [] then (Pass, term)
    else match term[0]
         case '+' => (Pass, term[1..])
         case '-' => (Fail, term[1..])
         case '~' => (SoftFail, term[1..])
         case '?' => (Neutral, term[1..])
         case _ => (Pass, term)
  }

  function StripPrefixCi(s: string, prefix: string): Option<string> {
    if |s| >= |prefix| && LowerAscii(s[..|prefix|]) == LowerAscii(prefix) then Some(s[|prefix|..]) else None
  }

  function ParseU8(s: string, default: U8): U8 {
    var n := ParseUnsigned(s, 255);
    if n.Some? then n.value else default
  }

  function SplitCidr(spec: string, default: U8): (string, U8) {
    var i := Find(spec, '/');
    if i < |spec| then (spec[..i], ParseU8(spec[i + 1..], default)) else (spec, default)
  }

  function ParseDualCidr(z: Zone, mech: string, domain: string): (string, U8, U8) {
    var afterName :=
      if StripPrefixCi(mech, "a").Some? then StripPrefixCi(mech, "a").value
      else if StripPrefixCi(mech, "mx").Some? then StripPrefixCi(mech, "mx").value
      else "";
    var rest := TrimColons(afterName);
    if rest == [] then (domain, 32, 128)
    else
      var parts := Split(rest, '/');
      var target := if parts[0] != [] then z.lower(TrimDots(parts[0])) else domain;
      var c4 := if |parts| > 1 && parts[1] != [] then ParseU8(parts[1], 32) else 32;
      var c6 :=
        if |parts| >= 4 then ParseU8(parts[3], 128)
        else if |parts| == 3 && parts[1] == [] then ParseU8(parts[2], 128)
        else 128;
      (target, c4, c6)
  }

  function ParseMechanism(z: Zone, domain: string, mech: string): Mechanism {
    var l := LowerAscii(mech);
    if l == "all" then All
    else if StripPrefixCi(mech, "ip4:").Some? then
      var (addr, prefix) := SplitCidr(StripPrefixCi(mech, "ip4:").value, 32);
      Ip4(z.parse4(addr), if prefix > 32 then 32 else prefix)
    else if StripPrefixCi(mech, "ip6:").Some? then
      var (addr, prefix) := SplitCidr(StripPrefixCi(mech, "ip6:").value, 128);
      Ip6(z.parse6(addr), if prefix > 128 then 128 else prefix)
    else if l == "a" || "a:" <= l || "a/" <= l then
      var (target, c4, c6) := ParseDualCidr(z, mech, domain);
      A(target, c4, c6)
    else if l == "mx" || "mx:" <= l || "mx/" <= l then
      var (target, c4, c6) := ParseDualCidr(z, mech, domain);
      Mx(target, c4, c6)
    else if StripPrefixCi(mech, "include:").Some? then
      Include(z.lower(TrimDots(StripPrefixCi(mech, "include:").value)))
    else Skipped
  }

  predicate Covers(ip: IpAddr, addr: IpAddr, cidr4: U8, cidr6: U8) {
    match (ip, addr)
    case (V4(client), V4(network)) => Ipv4InNetwork(client, network, cidr4)
    case (V6(client), V6(network)) => Ipv6InNetwork(client, network, cidr6)
    case _ => false
  }

  method AnyCovers(ip: IpAddr, addrs: seq<IpAddr>, cidr4: U8, cidr6: U8) returns (yes: bool)
    ensures yes <==> exists i :: 0 <= i < |addrs| && Covers(ip, addrs[i], cidr4, cidr6)
  {
    for i := 0 to |addrs|
      invariant forall j :: 0 <= j < i ==> !Covers(ip, addrs[j], cidr4, cidr6)
    {
      if Covers(ip, addrs[i], cidr4, cidr6) {
        return true;
      }
    }
    yes := false;
  }
}
