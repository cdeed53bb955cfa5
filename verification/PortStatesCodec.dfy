/**
  The codec of the TCP and UDP port states.  Unlike the other list codecs it does not cut long
  lists: it refuses them, on both sides.
*/
module PortStatesCodec {
  import opened Parcels

  const PORT_STATES_MAX_LIST_SIZE: nat := 1000

  datatype TcpState = TcpState(localIp: string, localPort: u16, remoteIp: string, remotePort: u16,
                               uid: u32, pid: u32, state: u8)
  datatype UdpState = UdpState(localIp: string, localPort: u16, uid: u32, pid: u32)
  datatype PortStates = PortStates(tcp: seq<TcpState>, udp: seq<UdpState>)

  function EncTcp(x: TcpState): seq<Cell> {
    [Str(x.localIp), U16(x.localPort), Str(x.remoteIp), U16(x.remotePort), U32(x.uid), U32(x.pid), U8(x.state)]
  }
  function DecTcp(c: seq<Cell>, p: nat): Read<TcpState> {
    var (localIp, p) :- ReadString(c, p);
    var (localPort, p) :- ReadU16(c, p);
    var (remoteIp, p) :- ReadString(c, p);
    var (remotePort, p) :- ReadU16(c, p);
    var (uid, p) :- ReadU32(c, p);
    var (pid, p) :- ReadU32(c, p);
    var (state, p) :- ReadU8(c, p);
    Got(TcpState(localIp, localPort, remoteIp, remotePort, uid, pid, state), p)
  }

  function EncUdp(x: UdpState): seq<Cell> { [Str(x.localIp), U16(x.localPort), U32(x.uid), U32(x.pid)] }
  function DecUdp(c: seq<Cell>, p: nat): Read<UdpState> {
    var (localIp, p) :- ReadString(c, p);
    var (localPort, p) :- ReadU16(c, p);
    var (uid, p) :- ReadU32(c, p);
    var (pid, p) :- ReadU32(c, p);
    Got(UdpState(localIp, localPort, uid, pid), p)
  }

  function EncVector<T>(enc: T -> seq<Cell>, xs: seq<T>): seq<Cell>
    requires |xs| <= PORT_STATES_MAX_LIST_SIZE
  {
    [U32(|xs|)] + EncAll(enc, xs)
  }

  function DecVector<T>(dec: Decoder<T>, c: seq<Cell>, p: nat): Read<seq<T>> {
    var (size, p) :- ReadU32(c, p);
    if size > PORT_STATES_MAX_LIST_SIZE then Fail(p) else DecAll(dec, size, c, p)
  }

  predicate Encodable(x: PortStates) {
    |x.tcp| <= PORT_STATES_MAX_LIST_SIZE && |x.udp| <= PORT_STATES_MAX_LIST_SIZE
  }

  function EncStates(x: PortStates): seq<Cell>
    requires Encodable(x)
  {
    EncVector(EncTcp, x.tcp) + EncVector(EncUdp, x.udp)
  }

  function DecStates(c: seq<Cell>, p: nat): Read<PortStates> {
    var (tcp, p) :- DecVector(DecTcp, c, p);
    var (udp, p) :- DecVector(DecUdp, c, p);
    Got(PortStates(tcp, udp), p)
  }

  // ---------------------------------------------------------------- round trip

  lemma TcpBack(x: TcpState, c: seq<Cell>, p: nat)
    requires At(c, p, EncTcp(x))
    ensures DecTcp(c, p) == Got(x, p + |EncTcp(x)|)
  {
    AtCells(c, p, EncTcp(x));
  }

  lemma ElementCodecs()
    ensures RoundTrips(EncTcp, DecTcp, Same) && RoundTrips(EncUdp, DecUdp, Same)
  {
    hide EncTcp, DecTcp, At;
    forall x, c, p: nat | At(c, p, EncTcp(x)) ensures DecTcp(c, p) == Got(x, p + |EncTcp(x)|) {
      TcpBack(x, c, p);
    }
    forall x, c, p: nat | At(c, p, EncUdp(x)) ensures DecUdp(c, p) == Got(x, p + |EncUdp(x)|) {
      AtCells(c, p, EncUdp(x));
    }
  }

  lemma VectorBack<T(!new)>(enc: T -> seq<Cell>, dec: Decoder<T>, xs: seq<T>, c: seq<Cell>, p: nat)
    requires RoundTrips(enc, dec, Same) && |xs| <= PORT_STATES_MAX_LIST_SIZE && At(c, p, EncVector(enc, xs))
    ensures DecVector(dec, c, p) == Got(xs, p + |EncVector(enc, xs)|)
  {
    AtSplit(c, p, [U32(|xs|)], EncAll(enc, xs));
    AtCell(c, p, U32(|xs|));
    AllRoundTrip(enc, dec, Same, xs, c, p + 1);
    MapSame(xs);
  }

  // What can be written comes back exactly as it was.
  lemma StatesRoundTrip(x: PortStates, c: seq<Cell>, p: nat)
    requires |x.tcp| <= 1000 && |x.udp| <= 1000 && At(c, p, EncStates(x))
    ensures DecStates(c, p) == Got(x, p + |EncStates(x)|)
  {
    ElementCodecs();
    hide RoundTrips, At, EncVector, DecVector;
    AtSplit(c, p, EncVector(EncTcp, x.tcp), EncVector(EncUdp, x.udp));
    VectorBack(EncTcp, DecTcp, x.tcp, c, p);
    VectorBack(EncUdp, DecUdp, x.udp, c, p + |EncVector(EncTcp, x.tcp)|);
  }

  lemma {:induction false} AllLength<T>(dec: Decoder<T>, n: nat, c: seq<Cell>, p: nat)
    ensures DecAll(dec, n, c, p).Got? ==> |DecAll(dec, n, c, p).value| == n
    decreases n
  {
    if n > 0 { AllLength(dec, n - 1, c, p); }
  }

  // What can be read, from any parcel, can be written again.
  lemma ReadIsEncodable(c: seq<Cell>, p: nat)
    ensures DecStates(c, p).Got? ==> |DecStates(c, p).value.tcp| <= 1000 && |DecStates(c, p).value.udp| <= 1000
  {
    if DecStates(c, p).Got? {
      AllLength(DecTcp, c[p].u32, c, p + 1);
      var q := DecVector(DecTcp, c, p).pos;
      AllLength(DecUdp, c[q].u32, c, q + 1);
    }
  }

  // ---------------------------------------------------------------- writers and readers on a parcel

  method WriteVector<T>(parcel: Parcel, enc: T -> seq<Cell>, xs: seq<T>) returns (ok: bool)
    requires parcel.Valid()
    modifies parcel`cells
    ensures parcel.Valid()
    ensures |xs| > PORT_STATES_MAX_LIST_SIZE ==> !ok && parcel.cells == old(parcel.cells)
    ensures |xs| <= PORT_STATES_MAX_LIST_SIZE ==>
              Wrote(old(parcel.cells), parcel.cells, parcel.budget, EncVector(enc, xs), ok)
  {
    hide EncAll;
    if |xs| > PORT_STATES_MAX_LIST_SIZE {
      return false;
    }
    ghost var before, head := parcel.cells, [U32(|xs|)];
    ok := parcel.Write(U32(|xs|));
    if !ok {
      WroteFailed(before, parcel.cells, parcel.budget, head, EncAll(enc, xs));
      return;
    }
    EncAllEmpty(enc);
    assert xs[..0] == [] && head == head + EncAll(enc, xs[..0]);
    for i := 0 to |xs|
      invariant parcel.Valid() && ok
      invariant Wrote(before, parcel.cells, parcel.budget, head + EncAll(enc, xs[..i]), true)
    {
      ghost var c, done := parcel.cells, head + EncAll(enc, xs[..i]);
      ok := parcel.WriteEach(enc(xs[i]));
      EncAllSnoc(enc, xs, i);
      assert head + EncAll(enc, xs[..i + 1]) == done + enc(xs[i]);
      WroteThen(before, c, parcel.cells, parcel.budget, done, enc(xs[i]), ok);
      if !ok {
        ghost var rest := PrefixOfAll(enc, xs, i + 1, |xs|);
        WroteFailed(before, parcel.cells, parcel.budget, head + EncAll(enc, xs[..i + 1]), rest);
        assert xs[..|xs|] == xs;
        assert head + EncAll(enc, xs) == head + EncAll(enc, xs[..i + 1]) + rest;
        return;
      }
    }
    assert xs[..|xs|] == xs;
  }

  // Writing succeeds iff both lists are short enough and the parcel takes them.
  method WriteStates(parcel: Parcel, x: PortStates) returns (ok: bool)
    requires parcel.Valid()
    modifies parcel`cells
    ensures parcel.Valid()
    ensures ok <==> Encodable(x) && |old(parcel.cells)| + |EncStates(x)| <= parcel.budget
    ensures ok ==> parcel.cells == old(parcel.cells) + EncStates(x)
  {
    hide EncVector;
    ghost var before := parcel.cells;
    ok := WriteVector(parcel, EncTcp, x.tcp);
    if !ok {
      return;
    }
    ghost var c := parcel.cells;
    ok := WriteVector(parcel, EncUdp, x.udp);
    if |x.udp| <= PORT_STATES_MAX_LIST_SIZE {
      WroteThen(before, c, parcel.cells, parcel.budget, EncVector(EncTcp, x.tcp), EncVector(EncUdp, x.udp), ok);
    }
  }

  // The elements are read into a temporary vector, index by index, which then replaces the target.
  method ReadVector<T>(parcel: Parcel, dec: Decoder<T>, blank: T) returns (r: Read<seq<T>>)
    modifies parcel`cursor
    ensures r == DecVector(dec, parcel.cells, old(parcel.cursor)) && parcel.cursor == r.pos
  {
    ghost var p0 := parcel.cursor;
    var s := parcel.ReadEach(ReadU32);
    if s.Fail? {
      return Fail(s.pos);
    }
    var size := s.value;
    if size > PORT_STATES_MAX_LIST_SIZE {
      return Fail(s.pos);
    }
    var temp := new T[size](i => blank);
    for i := 0 to size
      invariant DecAll(dec, i, parcel.cells, p0 + 1) == Got(temp[..i], parcel.cursor)
    {
      var x := parcel.ReadEach(dec);
      if x.Fail? {
        AllFails(dec, i + 1, size, parcel.cells, p0 + 1);
        return Fail(x.pos);
      }
      temp[i] := x.value;
      assert temp[..i + 1] == temp[..i] + [x.value];
    }
    assert temp[..] == temp[..size];
    return Got(temp[..], parcel.cursor);
  }
}
