/**
  The firewall rule codecs: parameters with a conditional layout, lists cut to 100 elements, and
  the four rule messages built from them.  Each message has a value-level encoder and decoder;
  the writers and readers that branch or loop are methods on a parcel, proved against these.
*/
module FirewallCodec {
  import opened Parcels

  const FIREWALL_MAX_LIST_SIZE: u32 := 100
  const FAMILY_IPV4: u8 := 1
  const MULTIPLE_IP: u8 := 2
  const IPV6_ARRAY_SIZE: nat := 16

  function Zeros(n: nat): (z: seq<u8>)
    ensures |z| == n
  {
    if n == 0 then [] else Zeros(n - 1) + [0]
  }

  lemma ZerosSnoc(n: nat)
    ensures if n == 0 then Zeros(n) == [] else Zeros(n) == Zeros(n - 1) + [0]
  {
  }

  type Addr6 = s: seq<u8> | |s| == 16 witness Zeros(16)

  // The address union: the family says which member is in use.
  datatype Addresses = V4(start4: u32, end4: u32) | V6(start6: Addr6, end6: Addr6)
  datatype IpParamRecord = IpParam(family: u8, kind: u8, mask: u8, addrs: Addresses)
  type IpParam = x: IpParamRecord | x.family == FAMILY_IPV4 <==> x.addrs.V4? witness IpParam(1, 1, 32, V4(0, 0))

  datatype PortParam = PortParam(startPort: u16, endPort: u16)
  datatype DomainParam = DomainParam(isWildcard: bool, domain: string)
  datatype DnsParam = DnsParam(primaryDns: string, standbyDns: string)

  // ---------------------------------------------------------------- IP parameters

  // One byte of the start address, followed by one of the end address if there is one.
  function EncByte(b: u8, e: u8, multiple: bool): seq<Cell> {
    if multiple then [U8(b), U8(e)] else [U8(b)]
  }

  function EncV6(start: Addr6, end: Addr6, multiple: bool, n: nat): seq<Cell>
    requires n <= IPV6_ARRAY_SIZE
  {
    if n == 0 then [] else EncV6(start, end, multiple, n - 1) + EncByte(start[n - 1], end[n - 1], multiple)
  }

  function EncIp(x: IpParam): seq<Cell> {
    [U8(x.family), U8(x.kind), U8(x.mask)] + EncAddrs(x.addrs, x.kind == MULTIPLE_IP)
  }

  function EncAddrs(a: Addresses, multiple: bool): seq<Cell> {
    match a
    case V4(start, end) => [U32(start)] + (if multiple then [U32(end)] else [])
    case V6(start, end) => EncV6(start, end, multiple, IPV6_ARRAY_SIZE)
  }

  // An end byte that is not sent stays zero.
  function DecByte(multiple: bool, c: seq<Cell>, p: nat): Read<(u8, u8)> {
    var (b, p) :- ReadU8(c, p);
    if multiple then
      var (e, p) :- ReadU8(c, p);
      Got((b, e), p)
    else
      Got((b, 0), p)
  }

  // The first n bytes of the start and of the end address.
  function DecV6(multiple: bool, n: nat, c: seq<Cell>, p: nat): (r: Read<(seq<u8>, seq<u8>)>)
    ensures r.Got? ==> |r.value.0| == n && |r.value.1| == n
  {
    if n == 0 then Got(([], []), p)
    else
      var (bytes, p) :- DecV6(multiple, n - 1, c, p);
      var (b, p) :- DecByte(multiple, c, p);
      Got((bytes.0 + [b.0], bytes.1 + [b.1]), p)
  }

  function DecIp(c: seq<Cell>, p: nat): Read<IpParam> {
    var (family, p) :- ReadU8(c, p);
    var (kind, p) :- ReadU8(c, p);
    var (mask, p) :- ReadU8(c, p);
    if family == FAMILY_IPV4 then
      var (start, p) :- ReadU32(c, p);
      if kind == MULTIPLE_IP then
        var (end, p) :- ReadU32(c, p);
        Got(IpParam(family, kind, mask, V4(start, end)), p)
      else
        Got(IpParam(family, kind, mask, V4(start, 0)), p)
    else
      var (bytes, p) :- DecV6(kind == MULTIPLE_IP, IPV6_ARRAY_SIZE, c, p);
      Got(IpParam(family, kind, mask, V6(bytes.0, bytes.1)), p)
  }

  // What arrives: an end address is only sent with MULTIPLE_IP.
  function NormIp(x: IpParam): IpParam {
    if x.kind == MULTIPLE_IP then x
    else match x.addrs
      case V4(start, _) => x.(addrs := V4(start, 0))
      case V6(start, _) => x.(addrs := V6(start, Zeros(16)))
  }

  lemma ByteRoundTrip(b: u8, e: u8, multiple: bool, c: seq<Cell>, p: nat)
    requires At(c, p, EncByte(b, e, multiple))
    ensures DecByte(multiple, c, p) == Got((b, if multiple then e else 0), p + |EncByte(b, e, multiple)|)
  {
    AtCells(c, p, EncByte(b, e, multiple));
  }

  lemma {:induction false} V6RoundTrip(start: Addr6, end: Addr6, multiple: bool, n: nat, c: seq<Cell>, p: nat)
    requires n <= IPV6_ARRAY_SIZE && At(c, p, EncV6(start, end, multiple, n))
    ensures DecV6(multiple, n, c, p)
         == Got((start[..n], if multiple then end[..n] else Zeros(n)), p + |EncV6(start, end, multiple, n)|)
    decreases n
  {
    ZerosSnoc(n);
    hide EncByte, DecByte, At, Zeros;
    if n > 0 {
      var front := EncV6(start, end, multiple, n - 1);
      AtSplit(c, p, front, EncByte(start[n - 1], end[n - 1], multiple));
      V6RoundTrip(start, end, multiple, n - 1, c, p);
      ByteRoundTrip(start[n - 1], end[n - 1], multiple, c, p + |front|);
      assert start[..n] == start[..n - 1] + [start[n - 1]];
      assert end[..n] == end[..n - 1] + [end[n - 1]];
    }
  }

  lemma {:induction false} V6Stable(multiple: bool, n: nat, c: seq<Cell>, c2: seq<Cell>, p: nat)
    requires c <= c2 && p <= |c| && DecV6(multiple, n, c, p).Got?
    ensures DecV6(multiple, n, c, p).pos <= |c| && DecV6(multiple, n, c2, p) == DecV6(multiple, n, c, p)
    decreases n
  {
    if n > 0 { V6Stable(multiple, n - 1, c, c2, p); }
  }

  lemma IpRoundTrip(x: IpParam, c: seq<Cell>, p: nat)
    requires At(c, p, EncIp(x))
    ensures DecIp(c, p) == Got(NormIp(x), p + |EncIp(x)|)
  {
    hide Zeros, EncV6, DecV6, At;
    var head := [U8(x.family), U8(x.kind), U8(x.mask)];
    var multiple := x.kind == MULTIPLE_IP;
    AtSplit(c, p, head, EncAddrs(x.addrs, multiple));
    AtCells(c, p, head);
    match x.addrs
    case V4(start, end) =>
      AtCells(c, p + 3, EncAddrs(x.addrs, multiple));
    case V6(start, end) =>
      V6RoundTrip(start, end, multiple, IPV6_ARRAY_SIZE, c, p + 3);
      assert start[..16] == start && end[..16] == end;
  }

  lemma IpStableAt(c: seq<Cell>, c2: seq<Cell>, p: nat)
    requires c <= c2 && DecIp(c, p).Got?
    ensures DecIp(c, p).pos <= |c| && DecIp(c2, p) == DecIp(c, p)
  {
    hide DecV6;
    if c[p].u8 != FAMILY_IPV4 {
      V6Stable(c[p + 1].u8 == MULTIPLE_IP, IPV6_ARRAY_SIZE, c, c2, p + 3);
    }
  }

  lemma IpCodec()
    ensures RoundTrips(EncIp, DecIp, NormIp) && Stable(DecIp)
  {
    hide EncIp, DecIp, NormIp, At;
    forall x, c, p: nat | At(c, p, EncIp(x)) ensures DecIp(c, p) == Got(NormIp(x), p + |EncIp(x)|) {
      IpRoundTrip(x, c, p);
    }
    forall c, c2, p: nat | c <= c2 && DecIp(c, p).Got?
      ensures DecIp(c, p).pos <= |c| && DecIp(c2, p) == DecIp(c, p)
    {
      IpStableAt(c, c2, p);
    }
  }

  // ---------------------------------------------------------------- flat parameters

  function EncPort(x: PortParam): seq<Cell> { [U16(x.startPort), U16(x.endPort)] }

  function DecPort(c: seq<Cell>, p: nat): Read<PortParam> {
    var (startPort, p) :- ReadU16(c, p);
    var (endPort, p) :- ReadU16(c, p);
    Got(PortParam(startPort, endPort), p)
  }

  function EncDomain(x: DomainParam): seq<Cell> { [Flag(x.isWildcard), Str(x.domain)] }

  function DecDomain(c: seq<Cell>, p: nat): Read<DomainParam> {
    var (isWildcard, p) :- ReadBool(c, p);
    var (domain, p) :- ReadString(c, p);
    Got(DomainParam(isWildcard, domain), p)
  }

  function EncDns(x: DnsParam): seq<Cell> { [Str(x.primaryDns), Str(x.standbyDns)] }

  function DecDns(c: seq<Cell>, p: nat): Read<DnsParam> {
    var (primaryDns, p) :- ReadString(c, p);
    var (standbyDns, p) :- ReadString(c, p);
    Got(DnsParam(primaryDns, standbyDns), p)
  }

  lemma PortCodec()
    ensures RoundTrips(EncPort, DecPort, Same) && Stable(DecPort)
  {
    forall x, c, p: nat | At(c, p, EncPort(x)) ensures DecPort(c, p) == Got(x, p + |EncPort(x)|) {
      AtCells(c, p, EncPort(x));
    }
  }

  lemma DomainCodec()
    ensures RoundTrips(EncDomain, DecDomain, Same) && Stable(DecDomain)
  {
    forall x, c, p: nat | At(c, p, EncDomain(x)) ensures DecDomain(c, p) == Got(x, p + |EncDomain(x)|) {
      AtCells(c, p, EncDomain(x));
    }
  }

  // ---------------------------------------------------------------- rules

  // The external rule, in the order its fields are sent: the scalars, the lists, the rest.
  datatype RuleInfo = RuleInfo(
    ruleId: i32, ruleName: string, ruleDescription: string,
    ruleDirection: i32, ruleAction: i32, ruleType: i32, isEnabled: bool, appUid: i32)
  datatype RuleLists = RuleLists(
    localIps: seq<IpParam>, remoteIps: seq<IpParam>, protocol: i32,
    localPorts: seq<PortParam>, remotePorts: seq<PortParam>, domains: seq<DomainParam>)
  datatype Rule = Rule(info: RuleInfo, lists: RuleLists, dns: DnsParam, userId: i32, iface: string)

  datatype IpLists = IpLists(
    localIps: seq<IpParam>, remoteIps: seq<IpParam>, localPorts: seq<PortParam>, remotePorts: seq<PortParam>)
  datatype IpRule = IpRule(
    userId: i32, appUid: i32, ruleDirection: i32, ruleAction: i32, protocol: i32, lists: IpLists, iface: string)

  datatype DomainRule = DomainRule(userId: i32, appUid: i32, ruleAction: i32, domains: seq<DomainParam>)

  datatype DnsRule = DnsRule(userId: i32, appUid: i32, primaryDns: string, standbyDns: string)

  // The enumerators a reader accepts: RULE_IN, RULE_OUT; RULE_ALLOW, RULE_DENY; RULE_IP to RULE_ALL.
  predicate ValidDirection(x: i32) { 1 <= x <= 2 }
  predicate ValidAction(x: i32) { 0 <= x <= 1 }
  predicate ValidType(x: i32) { 1 <= x <= 5 }

  function EncIps(xs: seq<IpParam>): seq<Cell> { EncList(EncIp, FIREWALL_MAX_LIST_SIZE, xs) }
  function EncPorts(xs: seq<PortParam>): seq<Cell> { EncList(EncPort, FIREWALL_MAX_LIST_SIZE, xs) }
  function EncDomains(xs: seq<DomainParam>): seq<Cell> { EncList(EncDomain, FIREWALL_MAX_LIST_SIZE, xs) }

  function DecIps(c: seq<Cell>, p: nat): Read<seq<IpParam>> { DecList(DecIp, FIREWALL_MAX_LIST_SIZE, c, p) }
  function DecPorts(c: seq<Cell>, p: nat): Read<seq<PortParam>> { DecList(DecPort, FIREWALL_MAX_LIST_SIZE, c, p) }
  function DecDomains(c: seq<Cell>, p: nat): Read<seq<DomainParam>> { DecList(DecDomain, FIREWALL_MAX_LIST_SIZE, c, p) }

  function Cut<T>(xs: seq<T>): seq<T> { xs[..Announced(|xs|, FIREWALL_MAX_LIST_SIZE)] }
  function NormIps(xs: seq<IpParam>): seq<IpParam> { MapAll(NormIp, Cut(xs)) }

  function EncInfo(x: RuleInfo): seq<Cell> {
    [I32(x.ruleId), Str(x.ruleName), Str(x.ruleDescription), I32(x.ruleDirection), I32(x.ruleAction),
     I32(x.ruleType), Flag(x.isEnabled), I32(x.appUid)]
  }

  function EncLists(x: RuleLists): seq<Cell> {
    EncIps(x.localIps) + EncIps(x.remoteIps) + [I32(x.protocol)] + EncPorts(x.localPorts)
    + EncPorts(x.remotePorts) + EncDomains(x.domains)
  }

  function EncTail(r: Rule): seq<Cell> { EncDns(r.dns) + [I32(r.userId), Str(r.iface)] }

  function EncRule(r: Rule): seq<Cell> {
    EncInfo(r.info) + EncLists(r.lists) + EncTail(r)
  }

  function DecInfo(c: seq<Cell>, p: nat): Read<RuleInfo> {
    var (ruleId, p) :- ReadI32(c, p);
    var (ruleName, p) :- ReadString(c, p);
    var (ruleDescription, p) :- ReadString(c, p);
    var (ruleDirection, p) :- ReadI32(c, p);
    if !ValidDirection(ruleDirection) then Fail(p) else
    var (ruleAction, p) :- ReadI32(c, p);
    if !ValidAction(ruleAction) then Fail(p) else
    var (ruleType, p) :- ReadI32(c, p);
    if !ValidType(ruleType) then Fail(p) else
    var (isEnabled, p) :- ReadBool(c, p);
    var (appUid, p) :- ReadI32(c, p);
    Got(RuleInfo(ruleId, ruleName, ruleDescription, ruleDirection, ruleAction, ruleType, isEnabled, appUid), p)
  }

  function DecLists(c: seq<Cell>, p: nat): Read<RuleLists> {
    var (localIps, p) :- DecIps(c, p);
    var (remoteIps, p) :- DecIps(c, p);
    var (protocol, p) :- ReadI32(c, p);
    var (localPorts, p) :- DecPorts(c, p);
    var (remotePorts, p) :- DecPorts(c, p);
    var (domains, p) :- DecDomains(c, p);
    Got(RuleLists(localIps, remoteIps, protocol, localPorts, remotePorts, domains), p)
  }

  function DecRule(c: seq<Cell>, p: nat): Read<Rule> {
    var (info, p) :- DecInfo(c, p);
    var (lists, p) :- DecLists(c, p);
    var (dns, p) :- DecDns(c, p);
    var (userId, p) :- ReadI32(c, p);
    var (iface, p) :- ReadString(c, p);
    Got(Rule(info, lists, dns, userId, iface), p)
  }

  predicate ValidInfo(x: RuleInfo) {
    ValidDirection(x.ruleDirection) && ValidAction(x.ruleAction) && ValidType(x.ruleType)
  }

  // What arrives: lists cut, unused end addresses zero.
  function NormLists(x: RuleLists): RuleLists {
    RuleLists(NormIps(x.localIps), NormIps(x.remoteIps), x.protocol,
              Cut(x.localPorts), Cut(x.remotePorts), Cut(x.domains))
  }
  function NormRule(r: Rule): Rule { r.(lists := NormLists(r.lists)) }

  lemma IpsRoundTrip(xs: seq<IpParam>, c: seq<Cell>, p: nat)
    requires At(c, p, EncIps(xs))
    ensures DecIps(c, p) == Got(NormIps(xs), p + |EncIps(xs)|)
  {
    IpCodec();
    ListRoundTrip(EncIp, DecIp, NormIp, FIREWALL_MAX_LIST_SIZE, xs, c, p);
  }

  lemma PortsRoundTrip(xs: seq<PortParam>, c: seq<Cell>, p: nat)
    requires At(c, p, EncPorts(xs))
    ensures DecPorts(c, p) == Got(Cut(xs), p + |EncPorts(xs)|)
  {
    PortCodec();
    ListRoundTrip(EncPort, DecPort, Same, FIREWALL_MAX_LIST_SIZE, xs, c, p);
    MapSame(Cut(xs));
  }

  lemma DomainsRoundTrip(xs: seq<DomainParam>, c: seq<Cell>, p: nat)
    requires At(c, p, EncDomains(xs))
    ensures DecDomains(c, p) == Got(Cut(xs), p + |EncDomains(xs)|)
  {
    DomainCodec();
    ListRoundTrip(EncDomain, DecDomain, Same, FIREWALL_MAX_LIST_SIZE, xs, c, p);
    MapSame(Cut(xs));
  }

  lemma ListsRoundTrip(x: RuleLists, c: seq<Cell>, p: nat)
    requires At(c, p, EncLists(x))
    ensures DecLists(c, p) == Got(NormLists(x), p + |EncLists(x)|)
  {
    hide EncIps, EncPorts, EncDomains, DecIps, DecPorts, DecDomains, NormIps, Cut, At;
    var e1 := EncIps(x.localIps);
    var e2 := e1 + EncIps(x.remoteIps);
    var e3 := e2 + [I32(x.protocol)];
    var e4 := e3 + EncPorts(x.localPorts);
    var e5 := e4 + EncPorts(x.remotePorts);
    AtSplit(c, p, e5, EncDomains(x.domains));
    AtSplit(c, p, e4, EncPorts(x.remotePorts));
    AtSplit(c, p, e3, EncPorts(x.localPorts));
    AtSplit(c, p, e2, [I32(x.protocol)]);
    AtSplit(c, p, e1, EncIps(x.remoteIps));
    IpsRoundTrip(x.localIps, c, p);
    IpsRoundTrip(x.remoteIps, c, p + |e1|);
    AtCell(c, p + |e2|, I32(x.protocol));
    PortsRoundTrip(x.localPorts, c, p + |e3|);
    PortsRoundTrip(x.remotePorts, c, p + |e4|);
    DomainsRoundTrip(x.domains, c, p + |e5|);
  }

  lemma InfoRoundTrip(x: RuleInfo, c: seq<Cell>, p: nat)
    requires At(c, p, EncInfo(x))
    ensures ValidInfo(x) ==> DecInfo(c, p) == Got(x, p + |EncInfo(x)|)
    ensures !ValidInfo(x) ==> DecInfo(c, p).Fail?
  {
    AtCells(c, p, EncInfo(x));
  }

  // A rule is accepted iff its enumerators are valid, and then arrives normalised; the cursor
  // ends right after the cells written, whatever follows them.
  lemma RuleRoundTrip(r: Rule, c: seq<Cell>, p: nat)
    requires At(c, p, EncRule(r))
    ensures ValidInfo(r.info) ==> DecRule(c, p) == Got(NormRule(r), p + |EncRule(r)|)
    ensures !ValidInfo(r.info) ==> DecRule(c, p).Fail?
  {
    hide EncInfo, EncLists, DecInfo, DecLists, NormLists, At;
    var tail := EncTail(r);
    AtSplit(c, p, EncInfo(r.info) + EncLists(r.lists), tail);
    AtSplit(c, p, EncInfo(r.info), EncLists(r.lists));
    InfoRoundTrip(r.info, c, p);
    ListsRoundTrip(r.lists, c, p + |EncInfo(r.info)|);
    AtCells(c, p + |EncInfo(r.info)| + |EncLists(r.lists)|, tail);
  }

  // The enumerators that are accepted: a direction of 1 or 2, an action of 0 or 1, a type of 1 to 5.
  lemma RuleAcceptedIff(r: Rule, c: seq<Cell>, p: nat)
    requires At(c, p, EncRule(r))
    ensures DecRule(c, p).Got? <==>
            1 <= r.info.ruleDirection <= 2 && 0 <= r.info.ruleAction <= 1 && 1 <= r.info.ruleType <= 5
  {
    hide EncRule, DecRule, NormRule, At;
    RuleRoundTrip(r, c, p);
  }

  // ---------------------------------------------------------------- what arrives unchanged

  // The parameter has no end address, or sends it.
  predicate Plain(x: IpParam) {
    x.kind == 2 || match x.addrs
                   case V4(_, end) => end == 0
                   case V6(_, end) => forall i :: 0 <= i < 16 ==> end[i] == 0
  }

  predicate AllPlain(xs: seq<IpParam>) { forall i :: 0 <= i < |xs| ==> Plain(xs[i]) }

  lemma {:induction false} ZerosAt(n: nat, i: nat)
    requires i < n
    ensures Zeros(n)[i] == 0
    decreases n
  {
    if i < n - 1 { ZerosAt(n - 1, i); }
  }

  lemma IsZeros(s: Addr6)
    ensures s == Zeros(16) <==> forall i :: 0 <= i < 16 ==> s[i] == 0
  {
    forall i | 0 <= i < 16 ensures Zeros(16)[i] == 0 { ZerosAt(16, i); }
    hide Zeros;
  }

  lemma IpUnchangedIff(x: IpParam)
    ensures NormIp(x) == x <==> Plain(x)
  {
    hide Zeros;
    if x.addrs.V6? { IsZeros(x.addrs.end6); }
  }

  lemma CutUnchangedIff<T>(xs: seq<T>)
    ensures Cut(xs) == xs <==> |xs| <= 100
  {
    if |xs| <= 100 { assert xs[..|xs|] == xs; }
  }

  lemma IpsUnchangedIff(xs: seq<IpParam>)
    ensures NormIps(xs) == xs <==> |xs| <= 100 && AllPlain(xs)
  {
    CutUnchangedIff(xs);
    hide NormIp, Plain;
    if Cut(xs) == xs {
      hide Cut;
      forall i | 0 <= i < |xs| ensures NormIp(xs[i]) == xs[i] <==> Plain(xs[i]) { IpUnchangedIff(xs[i]); }
      if NormIps(xs) == xs {
        forall i | 0 <= i < |xs| ensures Plain(xs[i]) { assert NormIps(xs)[i] == NormIp(xs[i]); }
      }
    }
  }

  // A rule comes back exactly as it was iff its enumerators are accepted, no list has more than 100
  // elements, and an end address is only there where it is sent.
  lemma RuleUnchangedIff(r: Rule, c: seq<Cell>, p: nat)
    requires At(c, p, EncRule(r))
    ensures var (x, l) := (r.info, r.lists);
            DecRule(c, p) == Got(r, p + |EncRule(r)|) <==>
            && 1 <= x.ruleDirection <= 2 && 0 <= x.ruleAction <= 1 && 1 <= x.ruleType <= 5
            && |l.localIps| <= 100 && |l.remoteIps| <= 100 && |l.localPorts| <= 100 && |l.remotePorts| <= 100
            && |l.domains| <= 100 && AllPlain(l.localIps) && AllPlain(l.remoteIps)
  {
    hide EncRule, DecRule, At, NormIps, Cut, AllPlain;
    RuleRoundTrip(r, c, p);
    IpsUnchangedIff(r.lists.localIps);
    IpsUnchangedIff(r.lists.remoteIps);
    CutUnchangedIff(r.lists.localPorts);
    CutUnchangedIff(r.lists.remotePorts);
    CutUnchangedIff(r.lists.domains);
  }

  lemma {:induction false} V6Cells(start: Addr6, end: Addr6, multiple: bool, n: nat)
    requires n <= 16
    ensures |EncV6(start, end, multiple, n)| == if multiple then 2 * n else n
    decreases n
  {
    if n > 0 { V6Cells(start, end, multiple, n - 1); }
  }

  // How long a parameter is on the wire: family 1 is IPv4, type 2 has an end address.
  lemma IpCells(x: IpParam)
    ensures |EncIp(x)| == 3 + (if x.family == 1 then 1 else 16) * (if x.kind == 2 then 2 else 1)
  {
    hide EncV6;
    if x.addrs.V6? { V6Cells(x.addrs.start6, x.addrs.end6, x.kind == 2, 16); }
  }

  // ---------------------------------------------------------------- readers see nothing beyond a message

  lemma ListStableAt(c: seq<Cell>, c2: seq<Cell>, p: nat)
    requires c <= c2
    ensures DecIps(c, p).Got? ==> DecIps(c, p).pos <= |c| && DecIps(c2, p) == DecIps(c, p)
    ensures DecPorts(c, p).Got? ==> DecPorts(c, p).pos <= |c| && DecPorts(c2, p) == DecPorts(c, p)
    ensures DecDomains(c, p).Got? ==> DecDomains(c, p).pos <= |c| && DecDomains(c2, p) == DecDomains(c, p)
  {
    IpCodec();
    PortCodec();
    DomainCodec();
    if DecIps(c, p).Got? { ListStable(DecIp, FIREWALL_MAX_LIST_SIZE, c, c2, p); }
    if DecPorts(c, p).Got? { ListStable(DecPort, FIREWALL_MAX_LIST_SIZE, c, c2, p); }
    if DecDomains(c, p).Got? { ListStable(DecDomain, FIREWALL_MAX_LIST_SIZE, c, c2, p); }
  }

  lemma ListsStableAt(c: seq<Cell>, c2: seq<Cell>, p: nat)
    requires c <= c2 && DecLists(c, p).Got?
    ensures DecLists(c, p).pos <= |c| && DecLists(c2, p) == DecLists(c, p)
  {
    hide DecIps, DecPorts, DecDomains;
    var p1 := DecIps(c, p).pos;
    var p2 := DecIps(c, p1).pos;
    var p4 := DecPorts(c, p2 + 1).pos;
    var p5 := DecPorts(c, p4).pos;
    ListStableAt(c, c2, p);
    ListStableAt(c, c2, p1);
    ListStableAt(c, c2, p2 + 1);
    ListStableAt(c, c2, p4);
    ListStableAt(c, c2, p5);
  }

  lemma InfoStableAt(c: seq<Cell>, c2: seq<Cell>, p: nat)
    requires c <= c2 && DecInfo(c, p).Got?
    ensures DecInfo(c, p).pos <= |c| && DecInfo(c2, p) == DecInfo(c, p)
  {
  }

  lemma RuleStableAt(c: seq<Cell>, c2: seq<Cell>, p: nat)
    requires c <= c2 && DecRule(c, p).Got?
    ensures DecRule(c, p).pos <= |c| && DecRule(c2, p) == DecRule(c, p)
  {
    hide DecInfo, DecLists;
    InfoStableAt(c, c2, p);
    ListsStableAt(c, c2, DecInfo(c, p).pos);
  }

  lemma RuleStable()
    ensures Stable(DecRule)
  {
    hide DecRule;
    forall c: seq<Cell>, c2: seq<Cell>, p: nat | c <= c2 && DecRule(c, p).Got?
      ensures DecRule(c, p).pos <= |c| && DecRule(c2, p) == DecRule(c, p)
    {
      RuleStableAt(c, c2, p);
    }
  }

  lemma RulePrefixRejected(r: Rule, k: nat)
    requires k < |EncRule(r)|
    ensures DecRule(EncRule(r)[..k], 0).Fail?
  {
    RuleStable();
    assert At(EncRule(r), 0, EncRule(r));
    RuleRoundTrip(r, EncRule(r), 0);
    PrefixRejected(DecRule, EncRule(r), k);
  }

  method WriteLists(parcel: Parcel, x: RuleLists) returns (ok: bool)
    requires parcel.Valid()
    modifies parcel`cells
    ensures parcel.Valid() && Wrote(old(parcel.cells), parcel.cells, parcel.budget, EncLists(x), ok)
  {
    hide EncIp, EncList, Wrote;
    ghost var a, n := parcel.cells, parcel.budget;
    ok := parcel.WriteList(EncIp, FIREWALL_MAX_LIST_SIZE, x.localIps);
    ghost var b, was, e := parcel.cells, ok, EncIps(x.localIps);
    if ok { ok := parcel.WriteList(EncIp, FIREWALL_MAX_LIST_SIZE, x.remoteIps); }
    WroteNext(a, b, parcel.cells, n, e, EncIps(x.remoteIps), was, ok);
    b, was, e := parcel.cells, ok, e + EncIps(x.remoteIps);
    if ok { ok := parcel.Write(I32(x.protocol)); }
    WroteNext(a, b, parcel.cells, n, e, [I32(x.protocol)], was, ok);
    b, was, e := parcel.cells, ok, e + [I32(x.protocol)];
    if ok { ok := parcel.WriteList(EncPort, FIREWALL_MAX_LIST_SIZE, x.localPorts); }
    WroteNext(a, b, parcel.cells, n, e, EncPorts(x.localPorts), was, ok);
    b, was, e := parcel.cells, ok, e + EncPorts(x.localPorts);
    if ok { ok := parcel.WriteList(EncPort, FIREWALL_MAX_LIST_SIZE, x.remotePorts); }
    WroteNext(a, b, parcel.cells, n, e, EncPorts(x.remotePorts), was, ok);
    b, was, e := parcel.cells, ok, e + EncPorts(x.remotePorts);
    if ok { ok := parcel.WriteList(EncDomain, FIREWALL_MAX_LIST_SIZE, x.domains); }
    WroteNext(a, b, parcel.cells, n, e, EncDomains(x.domains), was, ok);
  }

  // The whole rule, field by field, stopping at the first write that fails.
  method WriteRule(parcel: Parcel, r: Rule) returns (ok: bool)
    requires parcel.Valid()
    modifies parcel`cells
    ensures parcel.Valid() && Wrote(old(parcel.cells), parcel.cells, parcel.budget, EncRule(r), ok)
  {
    hide EncInfo, EncLists, Wrote;
    ghost var a, n := parcel.cells, parcel.budget;
    ok := parcel.WriteEach(EncInfo(r.info));
    ghost var b, was, e := parcel.cells, ok, EncInfo(r.info);
    if ok { ok := WriteLists(parcel, r.lists); }
    WroteNext(a, b, parcel.cells, n, e, EncLists(r.lists), was, ok);
    b, was, e := parcel.cells, ok, e + EncLists(r.lists);
    var tail := EncTail(r);
    if ok { ok := parcel.WriteEach(tail); }
    WroteNext(a, b, parcel.cells, n, e, tail, was, ok);
  }

  // A rule whose writing failed half way is never taken for a rule.
  lemma PartialRuleRejected(r: Rule, cells: seq<Cell>, budget: nat)
    requires Wrote([], cells, budget, EncRule(r), false)
    ensures DecRule(cells, 0).Fail?
  {
    assert [] + EncRule(r) == EncRule(r);
    RulePrefixRejected(r, budget);
  }

  // ---------------------------------------------------------------- the rules sent to the native service

  function EncIpLists(x: IpLists): seq<Cell> {
    EncIps(x.localIps) + EncIps(x.remoteIps) + EncPorts(x.localPorts) + EncPorts(x.remotePorts)
  }

  function EncIpRule(x: IpRule): seq<Cell> {
    [I32(x.userId), I32(x.appUid), I32(x.ruleDirection), I32(x.ruleAction), I32(x.protocol)]
    + EncIpLists(x.lists) + [Str(x.iface)]
  }

  function DecIpLists(c: seq<Cell>, p: nat): Read<IpLists> {
    var (localIps, p) :- DecIps(c, p);
    var (remoteIps, p) :- DecIps(c, p);
    var (localPorts, p) :- DecPorts(c, p);
    var (remotePorts, p) :- DecPorts(c, p);
    Got(IpLists(localIps, remoteIps, localPorts, remotePorts), p)
  }

  function DecIpRule(c: seq<Cell>, p: nat): Read<IpRule> {
    var (userId, p) :- ReadI32(c, p);
    var (appUid, p) :- ReadI32(c, p);
    var (ruleDirection, p) :- ReadI32(c, p);
    if !ValidDirection(ruleDirection) then Fail(p) else
    var (ruleAction, p) :- ReadI32(c, p);
    if !ValidAction(ruleAction) then Fail(p) else
    var (protocol, p) :- ReadI32(c, p);
    var (lists, p) :- DecIpLists(c, p);
    var (iface, p) :- ReadString(c, p);
    Got(IpRule(userId, appUid, ruleDirection, ruleAction, protocol, lists, iface), p)
  }

  function EncDomainRule(x: DomainRule): seq<Cell> {
    [I32(x.userId), I32(x.appUid), I32(x.ruleAction)] + EncDomains(x.domains)
  }

  function DecDomainRule(c: seq<Cell>, p: nat): Read<DomainRule> {
    var (userId, p) :- ReadI32(c, p);
    var (appUid, p) :- ReadI32(c, p);
    var (ruleAction, p) :- ReadI32(c, p);
    if !ValidAction(ruleAction) then Fail(p) else
    var (domains, p) :- DecDomains(c, p);
    Got(DomainRule(userId, appUid, ruleAction, domains), p)
  }

  function EncDnsRule(x: DnsRule): seq<Cell> {
    [I32(x.userId), I32(x.appUid), Str(x.primaryDns), Str(x.standbyDns)]
  }

  function DecDnsRule(c: seq<Cell>, p: nat): Read<DnsRule> {
    var (userId, p) :- ReadI32(c, p);
    var (appUid, p) :- ReadI32(c, p);
    var (primaryDns, p) :- ReadString(c, p);
    var (standbyDns, p) :- ReadString(c, p);
    Got(DnsRule(userId, appUid, primaryDns, standbyDns), p)
  }

  // The three kinds behind the base rule pointer, and the type sent ahead of them.
  datatype BaseRule = OfIp(ip: IpRule) | OfDomain(domain: DomainRule) | OfDns(dns: DnsRule)

  const RULE_IP: i32 := 1
  const RULE_DOMAIN: i32 := 2
  const RULE_DNS: i32 := 3

  function KindOf(r: BaseRule): i32 {
    match r case OfIp(_) => RULE_IP case OfDomain(_) => RULE_DOMAIN case OfDns(_) => RULE_DNS
  }

  function EncBase(r: BaseRule): seq<Cell> {
    match r case OfIp(x) => EncIpRule(x) case OfDomain(x) => EncDomainRule(x) case OfDns(x) => EncDnsRule(x)
  }

  // A reader that is told the type; an unknown type yields no rule.
  function DecBase(kind: i32, c: seq<Cell>, p: nat): Read<BaseRule> {
    if kind == RULE_IP then var (x, p) :- DecIpRule(c, p); Got(OfIp(x), p)
    else if kind == RULE_DOMAIN then var (x, p) :- DecDomainRule(c, p); Got(OfDomain(x), p)
    else if kind == RULE_DNS then var (x, p) :- DecDnsRule(c, p); Got(OfDns(x), p)
    else Fail(p)
  }

  predicate ValidBase(r: BaseRule) {
    match r
    case OfIp(x) => ValidDirection(x.ruleDirection) && ValidAction(x.ruleAction)
    case OfDomain(x) => ValidAction(x.ruleAction)
    case OfDns(_) => true
  }

  function NormIpLists(x: IpLists): IpLists {
    IpLists(NormIps(x.localIps), NormIps(x.remoteIps), Cut(x.localPorts), Cut(x.remotePorts))
  }

  function NormBase(r: BaseRule): BaseRule {
    match r
    case OfIp(x) => OfIp(x.(lists := NormIpLists(x.lists)))
    case OfDomain(x) => OfDomain(x.(domains := Cut(x.domains)))
    case OfDns(_) => r
  }

  lemma IpListsRoundTrip(x: IpLists, c: seq<Cell>, p: nat)
    requires At(c, p, EncIpLists(x))
    ensures DecIpLists(c, p) == Got(NormIpLists(x), p + |EncIpLists(x)|)
  {
    hide EncIps, EncPorts, DecIps, DecPorts, NormIps, Cut, At;
    var e1 := EncIps(x.localIps);
    var e2 := e1 + EncIps(x.remoteIps);
    var e3 := e2 + EncPorts(x.localPorts);
    AtSplit(c, p, e3, EncPorts(x.remotePorts));
    AtSplit(c, p, e2, EncPorts(x.localPorts));
    AtSplit(c, p, e1, EncIps(x.remoteIps));
    IpsRoundTrip(x.localIps, c, p);
    IpsRoundTrip(x.remoteIps, c, p + |e1|);
    PortsRoundTrip(x.localPorts, c, p + |e2|);
    PortsRoundTrip(x.remotePorts, c, p + |e3|);
  }

  lemma IpRuleRoundTrip(x: IpRule, c: seq<Cell>, p: nat)
    requires At(c, p, EncIpRule(x))
    ensures ValidBase(OfIp(x)) ==> DecIpRule(c, p) == Got(x.(lists := NormIpLists(x.lists)), p + |EncIpRule(x)|)
    ensures !ValidBase(OfIp(x)) ==> DecIpRule(c, p).Fail?
  {
    hide EncIpLists, DecIpLists, NormIpLists, At;
    var head := [I32(x.userId), I32(x.appUid), I32(x.ruleDirection), I32(x.ruleAction), I32(x.protocol)];
    AtSplit(c, p, head + EncIpLists(x.lists), [Str(x.iface)]);
    AtSplit(c, p, head, EncIpLists(x.lists));
    AtCells(c, p, head);
    IpListsRoundTrip(x.lists, c, p + 5);
    AtCell(c, p + 5 + |EncIpLists(x.lists)|, Str(x.iface));
  }

  lemma DomainRuleRoundTrip(x: DomainRule, c: seq<Cell>, p: nat)
    requires At(c, p, EncDomainRule(x))
    ensures ValidBase(OfDomain(x)) ==> DecDomainRule(c, p) == Got(x.(domains := Cut(x.domains)), p + |EncDomainRule(x)|)
    ensures !ValidBase(OfDomain(x)) ==> DecDomainRule(c, p).Fail?
  {
    hide EncDomains, DecDomains, Cut, At;
    var head := [I32(x.userId), I32(x.appUid), I32(x.ruleAction)];
    AtSplit(c, p, head, EncDomains(x.domains));
    AtCells(c, p, head);
    DomainsRoundTrip(x.domains, c, p + 3);
  }

  // Each kind of rule is accepted iff its enumerators are valid, and then arrives normalised.
  lemma BaseRoundTrip(r: BaseRule, c: seq<Cell>, p: nat)
    requires At(c, p, EncBase(r))
    ensures ValidBase(r) ==> DecBase(KindOf(r), c, p) == Got(NormBase(r), p + |EncBase(r)|)
    ensures !ValidBase(r) ==> DecBase(KindOf(r), c, p).Fail?
  {
    match r
    case OfIp(x) =>
      hide DecIpRule, EncIpRule, At, NormIpLists;
      IpRuleRoundTrip(x, c, p);
    case OfDomain(x) =>
      hide DecDomainRule, EncDomainRule, At, Cut;
      DomainRuleRoundTrip(x, c, p);
    case OfDns(x) =>
      AtCells(c, p, EncDnsRule(x));
  }

  // The same in the fields of the three kinds, whose types are 1, 2 and 3.
  lemma BaseAcceptedIff(r: BaseRule, c: seq<Cell>, p: nat)
    requires At(c, p, EncBase(r))
    ensures match r
            case OfIp(x) => DecBase(1, c, p).Got? <==> 1 <= x.ruleDirection <= 2 && 0 <= x.ruleAction <= 1
            case OfDomain(x) => DecBase(2, c, p).Got? <==> 0 <= x.ruleAction <= 1
            case OfDns(_) => DecBase(3, c, p).Got?
  {
    hide EncBase, DecBase, NormBase, At;
    BaseRoundTrip(r, c, p);
  }

  lemma BaseUnchangedIff(r: BaseRule, c: seq<Cell>, p: nat)
    requires At(c, p, EncBase(r)) && DecBase(KindOf(r), c, p).Got?
    ensures DecBase(KindOf(r), c, p) == Got(r, p + |EncBase(r)|) <==>
            match r
            case OfIp(x) =>
              && |x.lists.localIps| <= 100 && |x.lists.remoteIps| <= 100 && |x.lists.localPorts| <= 100
              && |x.lists.remotePorts| <= 100 && AllPlain(x.lists.localIps) && AllPlain(x.lists.remoteIps)
            case OfDomain(x) => |x.domains| <= 100
            case OfDns(_) => true
  {
    hide EncBase, DecBase, At, NormIps, Cut, AllPlain;
    BaseRoundTrip(r, c, p);
    match r
    case OfIp(x) =>
      IpsUnchangedIff(x.lists.localIps);
      IpsUnchangedIff(x.lists.remoteIps);
      CutUnchangedIff(x.lists.localPorts);
      CutUnchangedIff(x.lists.remotePorts);
    case OfDomain(x) => CutUnchangedIff(x.domains);
    case OfDns(_) =>
  }

  lemma BaseStableAt(kind: i32, c: seq<Cell>, c2: seq<Cell>, p: nat)
    requires c <= c2 && DecBase(kind, c, p).Got?
    ensures DecBase(kind, c, p).pos <= |c| && DecBase(kind, c2, p) == DecBase(kind, c, p)
  {
    hide DecIps, DecPorts, DecDomains;
    if kind == RULE_IP {
      var p1 := DecIps(c, p + 5).pos;
      var p2 := DecIps(c, p1).pos;
      ListStableAt(c, c2, p + 5);
      ListStableAt(c, c2, p1);
      ListStableAt(c, c2, p2);
      ListStableAt(c, c2, DecPorts(c, p2).pos);
    } else if kind == RULE_DOMAIN {
      ListStableAt(c, c2, p + 3);
    }
  }

  // A message cut short by a failing write is never taken for a rule.
  lemma BasePrefixRejected(r: BaseRule, k: nat)
    requires k < |EncBase(r)|
    ensures DecBase(KindOf(r), EncBase(r)[..k], 0).Fail?
  {
    hide DecBase, EncBase;
    var e := EncBase(r);
    assert At(e, 0, e);
    BaseRoundTrip(r, e, 0);
    if DecBase(KindOf(r), e[..k], 0).Got? {
      BaseStableAt(KindOf(r), e[..k], e, 0);
      assert false;
    }
  }

  // ---------------------------------------------------------------- writers and readers on a parcel

  method WriteIp(parcel: Parcel, x: IpParam) returns (ok: bool)
    requires parcel.Valid()
    modifies parcel`cells
    ensures parcel.Valid() && Wrote(old(parcel.cells), parcel.cells, parcel.budget, EncIp(x), ok)
  {
    var head := [U8(x.family), U8(x.kind), U8(x.mask)];
    ghost var body := EncAddrs(x.addrs, x.kind == MULTIPLE_IP);
    ok := parcel.WriteEach(head);
    if !ok {
      WroteFailed(old(parcel.cells), parcel.cells, parcel.budget, head, body);
      return;
    }
    ghost var c := parcel.cells;
    match x.addrs {
      case V4(start, end) =>
        ok := parcel.WriteEach([U32(start)] + if x.kind == MULTIPLE_IP then [U32(end)] else []);
      case V6(start, end) =>
        ok := WriteV6(parcel, start, end, x.kind == MULTIPLE_IP);
    }
    WroteThen(old(parcel.cells), c, parcel.cells, parcel.budget, head, body, ok);
  }

  // The start and end bytes alternate; the loop gives up at the first write that fails.
  method WriteV6(parcel: Parcel, start: Addr6, end: Addr6, multiple: bool) returns (ok: bool)
    requires parcel.Valid()
    modifies parcel`cells
    ensures parcel.Valid()
    ensures Wrote(old(parcel.cells), parcel.cells, parcel.budget, EncV6(start, end, multiple, IPV6_ARRAY_SIZE), ok)
  {
    ok := true;
    for i := 0 to IPV6_ARRAY_SIZE
      invariant parcel.Valid() && ok
      invariant Wrote(old(parcel.cells), parcel.cells, parcel.budget, EncV6(start, end, multiple, i), true)
    {
      ghost var c := parcel.cells;
      ok := parcel.WriteEach(EncByte(start[i], end[i], multiple));
      WroteThen(old(parcel.cells), c, parcel.cells, parcel.budget, EncV6(start, end, multiple, i),
                EncByte(start[i], end[i], multiple), ok);
      if !ok {
        ghost var rest := V6Rest(start, end, multiple, i + 1, IPV6_ARRAY_SIZE);
        WroteFailed(old(parcel.cells), parcel.cells, parcel.budget, EncV6(start, end, multiple, i + 1), rest);
        return;
      }
    }
  }

  lemma {:induction false} V6Rest(start: Addr6, end: Addr6, multiple: bool, i: nat, n: nat) returns (rest: seq<Cell>)
    requires i <= n <= IPV6_ARRAY_SIZE
    ensures EncV6(start, end, multiple, n) == EncV6(start, end, multiple, i) + rest
    decreases n
  {
    if i == n {
      rest := [];
    } else {
      rest := V6Rest(start, end, multiple, i, n - 1);
      rest := rest + EncByte(start[n - 1], end[n - 1], multiple);
    }
  }

  // The addresses are filled in byte by byte, starting from zero.
  method ReadIp(parcel: Parcel) returns (r: Read<IpParam>)
    modifies parcel`cursor
    ensures r == DecIp(parcel.cells, old(parcel.cursor)) && parcel.cursor == r.pos
  {
    var family := parcel.ReadEach(ReadU8);
    if family.Fail? { return Fail(family.pos); }
    var kind := parcel.ReadEach(ReadU8);
    if kind.Fail? { return Fail(kind.pos); }
    var mask := parcel.ReadEach(ReadU8);
    if mask.Fail? { return Fail(mask.pos); }
    if family.value == FAMILY_IPV4 {
      var start := parcel.ReadEach(ReadU32);
      if start.Fail? { return Fail(start.pos); }
      if kind.value == MULTIPLE_IP {
        var end := parcel.ReadEach(ReadU32);
        if end.Fail? { return Fail(end.pos); }
        return Got(IpParam(family.value, kind.value, mask.value, V4(start.value, end.value)), parcel.cursor);
      }
      return Got(IpParam(family.value, kind.value, mask.value, V4(start.value, 0)), parcel.cursor);
    }
    var bytes := ReadV6(parcel, kind.value == MULTIPLE_IP);
    if bytes.Fail? { return Fail(bytes.pos); }
    return Got(IpParam(family.value, kind.value, mask.value, V6(bytes.value.0, bytes.value.1)), parcel.cursor);
  }

  method ReadV6(parcel: Parcel, multiple: bool) returns (r: Read<(seq<u8>, seq<u8>)>)
    modifies parcel`cursor
    ensures r == DecV6(multiple, IPV6_ARRAY_SIZE, parcel.cells, old(parcel.cursor)) && parcel.cursor == r.pos
  {
    hide DecByte;
    ghost var p0 := parcel.cursor;
    var start, end := new u8[IPV6_ARRAY_SIZE](i => 0), new u8[IPV6_ARRAY_SIZE](i => 0);
    for i := 0 to IPV6_ARRAY_SIZE
      invariant DecV6(multiple, i, parcel.cells, p0) == Got((start[..i], end[..i]), parcel.cursor)
    {
      var b := ReadByte(parcel, multiple);
      if b.Fail? {
        V6Fails(multiple, i + 1, IPV6_ARRAY_SIZE, parcel.cells, p0);
        return Fail(b.pos);
      }
      start[i], end[i] := b.value.0, b.value.1;
      assert start[..i + 1] == start[..i] + [b.value.0] && end[..i + 1] == end[..i] + [b.value.1];
    }
    assert start[..] == start[..IPV6_ARRAY_SIZE] && end[..] == end[..IPV6_ARRAY_SIZE];
    return Got((start[..], end[..]), parcel.cursor);
  }

  method ReadByte(parcel: Parcel, multiple: bool) returns (r: Read<(u8, u8)>)
    modifies parcel`cursor
    ensures r == DecByte(multiple, parcel.cells, old(parcel.cursor)) && parcel.cursor == r.pos
  {
    var b: Read<u8> := parcel.ReadEach(ReadU8);
    if b.Fail? { return Fail(b.pos); }
    if multiple {
      var e: Read<u8> := parcel.ReadEach(ReadU8);
      if e.Fail? { return Fail(e.pos); }
      return Got((b.value, e.value), parcel.cursor);
    }
    return Got((b.value, 0), parcel.cursor);
  }

  lemma {:induction false} V6Fails(multiple: bool, i: nat, n: nat, c: seq<Cell>, p: nat)
    requires i <= n && DecV6(multiple, i, c, p).Fail?
    ensures DecV6(multiple, n, c, p) == DecV6(multiple, i, c, p)
    decreases n
  {
    if i < n { V6Fails(multiple, i, n - 1, c, p); }
  }
}
