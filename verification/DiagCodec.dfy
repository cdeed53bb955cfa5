/**
  The codecs of the network diagnostics results.  Their writers announce a capped size and stop
  their loops on a counter; their readers append to the lists of the object they fill.
*/
module DiagCodec {
  import opened Parcels
  import opened Sequences

  const ICMP_SEQ_LIST_MAX_SIZE: u32 := 1024
  const SOCKET_INFO_LIST_MAX_SIZE: u32 := 1024
  const IFCONFIG_MAX_IPV6_ADDR_NUM: u32 := 64

  function First<T>(xs: seq<T>, max: u32): seq<T> { xs[..Min(max, |xs|)] }

  // ---------------------------------------------------------------- elements

  datatype IcmpResponse = IcmpResponse(bytes: u16, icmpSeq: u16, ttl: u16, costTime: u32, from: string)

  function EncIcmp(x: IcmpResponse): seq<Cell> {
    [U16(x.bytes), U16(x.icmpSeq), U16(x.ttl), U32(x.costTime), Str(x.from)]
  }
  function DecIcmp(c: seq<Cell>, p: nat): Read<IcmpResponse> {
    var (bytes, p) :- ReadU16(c, p);
    var (icmpSeq, p) :- ReadU16(c, p);
    var (ttl, p) :- ReadU16(c, p);
    var (costTime, p) :- ReadU32(c, p);
    var (from, p) :- ReadString(c, p);
    Got(IcmpResponse(bytes, icmpSeq, ttl, costTime, from), p)
  }

  datatype UnixSocket = UnixSocket(refCnt: u16, inode: u32, protocol: string, flags: string, kind: string,
                                   state: string, path: string)

  function EncUnix(x: UnixSocket): seq<Cell> {
    [U16(x.refCnt), U32(x.inode), Str(x.protocol), Str(x.flags), Str(x.kind), Str(x.state), Str(x.path)]
  }
  function DecUnix(c: seq<Cell>, p: nat): Read<UnixSocket> {
    var (refCnt, p) :- ReadU16(c, p);
    var (inode, p) :- ReadU32(c, p);
    var (protocol, p) :- ReadString(c, p);
    var (flags, p) :- ReadString(c, p);
    var (kind, p) :- ReadString(c, p);
    var (state, p) :- ReadString(c, p);
    var (path, p) :- ReadString(c, p);
    Got(UnixSocket(refCnt, inode, protocol, flags, kind, state, path), p)
  }

  datatype NetProtoSocket = NetProtoSocket(protocol: string, localAddr: string, foreignAddr: string, state: string,
                                           user: string, programName: string, recvQueue: u16, sendQueue: u16,
                                           inode: u32)

  function EncNetProto(x: NetProtoSocket): seq<Cell> {
    [Str(x.protocol), Str(x.localAddr), Str(x.foreignAddr), Str(x.state), Str(x.user), Str(x.programName),
     U16(x.recvQueue), U16(x.sendQueue), U32(x.inode)]
  }
  function DecNetProto(c: seq<Cell>, p: nat): Read<NetProtoSocket> {
    var (protocol, p) :- ReadString(c, p);
    var (localAddr, p) :- ReadString(c, p);
    var (foreignAddr, p) :- ReadString(c, p);
    var (state, p) :- ReadString(c, p);
    var (user, p) :- ReadString(c, p);
    var (programName, p) :- ReadString(c, p);
    var (recvQueue, p) :- ReadU16(c, p);
    var (sendQueue, p) :- ReadU16(c, p);
    var (inode, p) :- ReadU32(c, p);
    Got(NetProtoSocket(protocol, localAddr, foreignAddr, state, user, programName, recvQueue, sendQueue, inode), p)
  }

  datatype V6Addr = V6Addr(addr: string, scope: string)

  function EncV6Addr(x: V6Addr): seq<Cell> { [Str(x.addr), Str(x.scope)] }
  function DecV6Addr(c: seq<Cell>, p: nat): Read<V6Addr> {
    var (addr, p) :- ReadString(c, p);
    var (scope, p) :- ReadString(c, p);
    Got(V6Addr(addr, scope), p)
  }

  // ---------------------------------------------------------------- results

  datatype PingResult = PingResult(host: string, ipAddr: string, dateSize: u16, payloadSize: u16,
                                   transCount: u16, recvCount: u16, icmpRespList: seq<IcmpResponse>)

  function PingHead(x: PingResult): seq<Cell> {
    [Str(x.host), Str(x.ipAddr), U16(x.dateSize), U16(x.payloadSize), U16(x.transCount), U16(x.recvCount)]
  }
  function EncPing(x: PingResult): seq<Cell> {
    PingHead(x) + EncCapped(EncIcmp, ICMP_SEQ_LIST_MAX_SIZE, x.icmpRespList)
  }
  // The responses read are appended to those the object already has.
  function DecPing(into: PingResult, c: seq<Cell>, p: nat): Read<PingResult> {
    var (host, p) :- ReadString(c, p);
    var (ipAddr, p) :- ReadString(c, p);
    var (dateSize, p) :- ReadU16(c, p);
    var (payloadSize, p) :- ReadU16(c, p);
    var (transCount, p) :- ReadU16(c, p);
    var (recvCount, p) :- ReadU16(c, p);
    var (list, p) :- DecList(DecIcmp, ICMP_SEQ_LIST_MAX_SIZE, c, p);
    Got(PingResult(host, ipAddr, dateSize, payloadSize, transCount, recvCount, into.icmpRespList + list), p)
  }

  datatype SocketsInfo = SocketsInfo(unix: seq<UnixSocket>, netProto: seq<NetProtoSocket>)

  function EncSockets(x: SocketsInfo): seq<Cell> {
    EncCapped(EncUnix, SOCKET_INFO_LIST_MAX_SIZE, x.unix)
    + EncCapped(EncNetProto, SOCKET_INFO_LIST_MAX_SIZE, x.netProto)
  }
  // Both lists of the object are emptied first.
  function DecSockets(c: seq<Cell>, p: nat): Read<SocketsInfo> {
    var (unix, p) :- DecList(DecUnix, SOCKET_INFO_LIST_MAX_SIZE, c, p);
    var (netProto, p) :- DecList(DecNetProto, SOCKET_INFO_LIST_MAX_SIZE, c, p);
    Got(SocketsInfo(unix, netProto), p)
  }

  datatype IfaceNames = IfaceNames(ifaceName: string, linkEncap: string, macAddr: string, ipv4Addr: string,
                                   ipv4Bcast: string, ipv4Mask: string)
  datatype IfaceCounters = IfaceCounters(mtu: u32, txQueueLen: u32, rxBytes: u32, txBytes: u32, isUp: bool)
  datatype IfaceConfig = IfaceConfig(names: IfaceNames, ipv6Addrs: seq<V6Addr>, counters: IfaceCounters)

  function EncNames(x: IfaceNames): seq<Cell> {
    [Str(x.ifaceName), Str(x.linkEncap), Str(x.macAddr), Str(x.ipv4Addr), Str(x.ipv4Bcast), Str(x.ipv4Mask)]
  }
  function DecNames(c: seq<Cell>, p: nat): Read<IfaceNames> {
    var (ifaceName, p) :- ReadString(c, p);
    var (linkEncap, p) :- ReadString(c, p);
    var (macAddr, p) :- ReadString(c, p);
    var (ipv4Addr, p) :- ReadString(c, p);
    var (ipv4Bcast, p) :- ReadString(c, p);
    var (ipv4Mask, p) :- ReadString(c, p);
    Got(IfaceNames(ifaceName, linkEncap, macAddr, ipv4Addr, ipv4Bcast, ipv4Mask), p)
  }

  function EncCounters(x: IfaceCounters): seq<Cell> {
    [U32(x.mtu), U32(x.txQueueLen), U32(x.rxBytes), U32(x.txBytes), Flag(x.isUp)]
  }
  function DecCounters(c: seq<Cell>, p: nat): Read<IfaceCounters> {
    var (mtu, p) :- ReadU32(c, p);
    var (txQueueLen, p) :- ReadU32(c, p);
    var (rxBytes, p) :- ReadU32(c, p);
    var (txBytes, p) :- ReadU32(c, p);
    var (isUp, p) :- ReadBool(c, p);
    Got(IfaceCounters(mtu, txQueueLen, rxBytes, txBytes, isUp), p)
  }

  function EncIface(x: IfaceConfig): seq<Cell> {
    EncNames(x.names) + EncCapped(EncV6Addr, IFCONFIG_MAX_IPV6_ADDR_NUM, x.ipv6Addrs) + EncCounters(x.counters)
  }
  // The addresses read are appended to those the object already has.
  function DecIface(into: IfaceConfig, c: seq<Cell>, p: nat): Read<IfaceConfig> {
    var (names, p) :- DecNames(c, p);
    var (list, p) :- DecList(DecV6Addr, IFCONFIG_MAX_IPV6_ADDR_NUM, c, p);
    var (counters, p) :- DecCounters(c, p);
    Got(IfaceConfig(names, into.ipv6Addrs + list, counters), p)
  }

  // ---------------------------------------------------------------- round trips

  lemma IcmpCodec()
    ensures RoundTrips(EncIcmp, DecIcmp, Same)
  {
    forall x, c, p: nat | At(c, p, EncIcmp(x)) ensures DecIcmp(c, p) == Got(x, p + |EncIcmp(x)|) {
      AtCells(c, p, EncIcmp(x));
    }
  }

  lemma UnixBack(x: UnixSocket, c: seq<Cell>, p: nat)
    requires At(c, p, EncUnix(x))
    ensures DecUnix(c, p) == Got(x, p + |EncUnix(x)|)
  {
    AtCells(c, p, EncUnix(x));
  }

  lemma UnixCodec()
    ensures RoundTrips(EncUnix, DecUnix, Same)
  {
    hide EncUnix, DecUnix, At;
    forall x, c, p: nat | At(c, p, EncUnix(x)) ensures DecUnix(c, p) == Got(x, p + |EncUnix(x)|) {
      UnixBack(x, c, p);
    }
  }

  lemma NetProtoBack(x: NetProtoSocket, c: seq<Cell>, p: nat)
    requires At(c, p, EncNetProto(x))
    ensures DecNetProto(c, p) == Got(x, p + |EncNetProto(x)|)
  {
    AtCells(c, p, EncNetProto(x));
  }

  lemma NetProtoCodec()
    ensures RoundTrips(EncNetProto, DecNetProto, Same)
  {
    hide EncNetProto, DecNetProto, At;
    forall x, c, p: nat | At(c, p, EncNetProto(x)) ensures DecNetProto(c, p) == Got(x, p + |EncNetProto(x)|) {
      NetProtoBack(x, c, p);
    }
  }

  lemma V6AddrCodec()
    ensures RoundTrips(EncV6Addr, DecV6Addr, Same)
  {
    forall x, c, p: nat | At(c, p, EncV6Addr(x)) ensures DecV6Addr(c, p) == Got(x, p + |EncV6Addr(x)|) {
      AtCells(c, p, EncV6Addr(x));
    }
  }

  // A list read back is the first max elements, and the cursor is where the writer stopped, iff
  // the 32-bit size did not wrap to a small number; otherwise fewer elements come back.
  lemma CappedBack<T(!new)>(enc: T -> seq<Cell>, dec: Decoder<T>, max: u32, xs: seq<T>, c: seq<Cell>, p: nat)
    requires RoundTrips(enc, dec, Same) && At(c, p, EncCapped(enc, max, xs))
    requires forall x :: enc(x) != []
    ensures DecList(dec, max, c, p) == Got(First(xs, max), p + |EncCapped(enc, max, xs)|) <==> Aligned(|xs|, max)
    ensures DecList(dec, max, c, p).Got?
    ensures !Aligned(|xs|, max) ==> |DecList(dec, max, c, p).value| < |First(xs, max)|
  {
    hide EncCapped, DecList;
    CappedRoundTrip(enc, dec, Same, max, xs, c, p);
    MapSame(xs[..Announced(|xs|, max)]);
    AnnouncedIff(|xs|, max);
  }

  lemma PingRoundTrip(into: PingResult, x: PingResult, c: seq<Cell>, p: nat)
    requires At(c, p, EncPing(x))
    ensures DecPing(into, c, p).Got?
    ensures var r := x.(icmpRespList := into.icmpRespList + First(x.icmpRespList, 1024));
            DecPing(into, c, p) == Got(r, p + |EncPing(x)|) <==> Aligned(|x.icmpRespList|, 1024)
  {
    hide EncCapped, DecList, At;
    var list := EncCapped(EncIcmp, ICMP_SEQ_LIST_MAX_SIZE, x.icmpRespList);
    AtSplit(c, p, PingHead(x), list);
    AtCells(c, p, PingHead(x));
    IcmpCodec();
    CappedBack(EncIcmp, DecIcmp, ICMP_SEQ_LIST_MAX_SIZE, x.icmpRespList, c, p + 6);
    var got := DecList(DecIcmp, ICMP_SEQ_LIST_MAX_SIZE, c, p + 6);
    var want := First(x.icmpRespList, ICMP_SEQ_LIST_MAX_SIZE);
    AppendInjective(into.icmpRespList, got.value, want);
  }

  // The two lists come back cut to 1024 iff neither size has wrapped.
  lemma SocketsRoundTrip(x: SocketsInfo, c: seq<Cell>, p: nat)
    requires At(c, p, EncSockets(x))
    ensures var r := SocketsInfo(First(x.unix, 1024),
                                 First(x.netProto, 1024));
            (DecSockets(c, p) == Got(r, p + |EncSockets(x)|) <==>
               Aligned(|x.unix|, 1024) && Aligned(|x.netProto|, 1024))
  {
    UnixCodec();
    NetProtoCodec();
    hide EncCapped, DecList, At, RoundTrips, DecUnix, DecNetProto, EncNetProto;
    var e := EncCapped(EncUnix, SOCKET_INFO_LIST_MAX_SIZE, x.unix);
    AtSplit(c, p, e, EncCapped(EncNetProto, SOCKET_INFO_LIST_MAX_SIZE, x.netProto));
    CappedBack(EncUnix, DecUnix, SOCKET_INFO_LIST_MAX_SIZE, x.unix, c, p);
    NetProtoNotEmpty();
    CappedBack(EncNetProto, DecNetProto, SOCKET_INFO_LIST_MAX_SIZE, x.netProto, c, p + |e|);
  }

  lemma NetProtoNotEmpty()
    ensures forall x :: EncNetProto(x) != []
  {
  }

  // The configuration comes back with its addresses cut to 64 and every later field in place iff the
  // size has not wrapped.
  lemma IfaceRoundTrip(into: IfaceConfig, x: IfaceConfig, c: seq<Cell>, p: nat)
    requires At(c, p, EncIface(x))
    ensures var r := x.(ipv6Addrs := into.ipv6Addrs + First(x.ipv6Addrs, 64));
            DecIface(into, c, p) == Got(r, p + |EncIface(x)|) <==> Aligned(|x.ipv6Addrs|, 64)
  {
    V6AddrCodec();
    hide EncCapped, DecList, At, RoundTrips, DecNames, DecV6Addr;
    var list := EncCapped(EncV6Addr, IFCONFIG_MAX_IPV6_ADDR_NUM, x.ipv6Addrs);
    AtSplit(c, p, EncNames(x.names) + list, EncCounters(x.counters));
    AtSplit(c, p, EncNames(x.names), list);
    NamesRoundTrip(x.names, c, p);
    CappedBack(EncV6Addr, DecV6Addr, IFCONFIG_MAX_IPV6_ADDR_NUM, x.ipv6Addrs, c, p + 6);
    if Aligned(|x.ipv6Addrs|, IFCONFIG_MAX_IPV6_ADDR_NUM) {
      AtCells(c, p + 6 + |list|, EncCounters(x.counters));
    } else {
      var got := DecList(DecV6Addr, IFCONFIG_MAX_IPV6_ADDR_NUM, c, p + 6).value;
      assert |into.ipv6Addrs + got| < |into.ipv6Addrs + First(x.ipv6Addrs, IFCONFIG_MAX_IPV6_ADDR_NUM)|;
    }
  }

  lemma NamesRoundTrip(x: IfaceNames, c: seq<Cell>, p: nat)
    requires At(c, p, EncNames(x))
    ensures DecNames(c, p) == Got(x, p + 6)
  {
    AtCells(c, p, EncNames(x));
  }

  // ---------------------------------------------------------------- writers on a parcel

  method WritePing(parcel: Parcel, x: PingResult) returns (ok: bool)
    requires parcel.Valid()
    modifies parcel`cells
    ensures parcel.Valid() && Wrote(old(parcel.cells), parcel.cells, parcel.budget, EncPing(x), ok)
  {
    ghost var list := EncCapped(EncIcmp, ICMP_SEQ_LIST_MAX_SIZE, x.icmpRespList);
    ok := parcel.WriteEach(PingHead(x));
    if !ok {
      WroteFailed(old(parcel.cells), parcel.cells, parcel.budget, PingHead(x), list);
      return;
    }
    ghost var c := parcel.cells;
    ok := parcel.WriteCapped(EncIcmp, ICMP_SEQ_LIST_MAX_SIZE, x.icmpRespList);
    WroteThen(old(parcel.cells), c, parcel.cells, parcel.budget, PingHead(x), list, ok);
  }

  method WriteSockets(parcel: Parcel, x: SocketsInfo) returns (ok: bool)
    requires parcel.Valid()
    modifies parcel`cells
    ensures parcel.Valid() && Wrote(old(parcel.cells), parcel.cells, parcel.budget, EncSockets(x), ok)
  {
    ghost var unix := EncCapped(EncUnix, SOCKET_INFO_LIST_MAX_SIZE, x.unix);
    ghost var netProto := EncCapped(EncNetProto, SOCKET_INFO_LIST_MAX_SIZE, x.netProto);
    ok := parcel.WriteCapped(EncUnix, SOCKET_INFO_LIST_MAX_SIZE, x.unix);
    if !ok {
      WroteFailed(old(parcel.cells), parcel.cells, parcel.budget, unix, netProto);
      return;
    }
    ghost var c := parcel.cells;
    ok := parcel.WriteCapped(EncNetProto, SOCKET_INFO_LIST_MAX_SIZE, x.netProto);
    WroteThen(old(parcel.cells), c, parcel.cells, parcel.budget, unix, netProto, ok);
  }

  method WriteIface(parcel: Parcel, x: IfaceConfig) returns (ok: bool)
    requires parcel.Valid()
    modifies parcel`cells
    ensures parcel.Valid() && Wrote(old(parcel.cells), parcel.cells, parcel.budget, EncIface(x), ok)
  {
    ghost var names, list := EncNames(x.names), EncCapped(EncV6Addr, IFCONFIG_MAX_IPV6_ADDR_NUM, x.ipv6Addrs);
    ghost var before := parcel.cells;
    ok := parcel.WriteEach(EncNames(x.names));
    if !ok {
      WroteFailed(before, parcel.cells, parcel.budget, names, list);
      WroteFailed(before, parcel.cells, parcel.budget, names + list, EncCounters(x.counters));
      return;
    }
    ghost var c := parcel.cells;
    ok := parcel.WriteCapped(EncV6Addr, IFCONFIG_MAX_IPV6_ADDR_NUM, x.ipv6Addrs);
    WroteThen(before, c, parcel.cells, parcel.budget, names, list, ok);
    if !ok {
      WroteFailed(before, parcel.cells, parcel.budget, names + list, EncCounters(x.counters));
      return;
    }
    c := parcel.cells;
    ok := parcel.WriteEach(EncCounters(x.counters));
    WroteThen(before, c, parcel.cells, parcel.budget, names + list, EncCounters(x.counters), ok);
  }
}
