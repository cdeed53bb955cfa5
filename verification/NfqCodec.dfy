/**
  The netfilter-queue context: a sequence number and a sparse array of queues, of which only the
  slots in use are sent, each with its index.
*/
module NfqCodec {
  import opened Parcels

  const NFQ_MAX_QUEUES: nat := 64

  datatype Slot = Empty | Queue(queueNum: u16)

  // The context, without the descriptor, which is never sent.
  datatype NfqCtx = NfqCtx(seqNo: u32, queues: seq<Slot>)

  ghost predicate WellFormed(ctx: NfqCtx) { |ctx.queues| == NFQ_MAX_QUEUES }

  // Queues in use among the first n slots.
  function Used(queues: seq<Slot>, n: nat): (k: nat)
    requires n <= |queues|
    ensures k <= n
  {
    if n == 0 then 0 else Used(queues, n - 1) + (if queues[n - 1].Queue? then 1 else 0)
  }

  function EncSlot(i: u32, slot: Slot): seq<Cell> {
    if slot.Queue? then [U32(i), U16(slot.queueNum)] else []
  }

  function EncSlots(queues: seq<Slot>, n: nat): (e: seq<Cell>)
    requires n <= |queues| == NFQ_MAX_QUEUES
    ensures |e| == 2 * Used(queues, n)
  {
    if n == 0 then [] else EncSlots(queues, n - 1) + EncSlot(n - 1, queues[n - 1])
  }

  function EncCtx(ctx: NfqCtx): seq<Cell>
    requires WellFormed(ctx)
  {
    [U32(ctx.seqNo), U32(Used(ctx.queues, NFQ_MAX_QUEUES))] + EncSlots(ctx.queues, NFQ_MAX_QUEUES)
  }

  function Empties(n: nat): (s: seq<Slot>)
    ensures |s| == n && forall i :: 0 <= i < n ==> s[i] == Empty
  {
    if n == 0 then [] else Empties(n - 1) + [Empty]
  }

  // An index inside the array, and a queue.
  function DecPair(c: seq<Cell>, p: nat): (r: Read<(u32, Slot)>)
    ensures r.Got? ==> r.value.0 < NFQ_MAX_QUEUES
  {
    var (index, p) :- ReadU32(c, p);
    if index >= NFQ_MAX_QUEUES then Fail(p) else
    var (queueNum, p) :- ReadU16(c, p);
    Got((index, Queue(queueNum)), p)
  }

  // The array after k index/queue pairs; a later pair for the same index replaces an earlier one.
  function DecPairs(k: nat, c: seq<Cell>, p: nat): (r: Read<seq<Slot>>)
    ensures r.Got? ==> |r.value| == 64
  {
    if k == 0 then Got(Empties(NFQ_MAX_QUEUES), p)
    else
      var (queues, p) :- DecPairs(k - 1, c, p);
      var (pair, p) :- DecPair(c, p);
      Got(queues[pair.0 := pair.1], p)
  }

  function DecCtx(c: seq<Cell>, p: nat): (r: Read<NfqCtx>)
    ensures r.Got? ==> |r.value.queues| == NFQ_MAX_QUEUES
  {
    var (seqNo, p) :- ReadU32(c, p);
    var (count, p) :- ReadU32(c, p);
    var (queues, p) :- DecPairs(count, c, p);
    Got(NfqCtx(seqNo, queues), p)
  }

  // ---------------------------------------------------------------- round trip

  // The array whose first n slots have been filled in.
  function Filled(queues: seq<Slot>, n: nat): (f: seq<Slot>)
    requires n <= |queues| == NFQ_MAX_QUEUES
    ensures |f| == NFQ_MAX_QUEUES
  {
    queues[..n] + Empties(NFQ_MAX_QUEUES - n)
  }

  lemma FilledStep(queues: seq<Slot>, n: nat)
    requires n < |queues| == NFQ_MAX_QUEUES
    ensures Filled(queues, 0) == Empties(NFQ_MAX_QUEUES)
    ensures Filled(queues, n + 1) == Filled(queues, n)[n := queues[n]]
    ensures queues[n] == Empty ==> Filled(queues, n + 1) == Filled(queues, n)
  {
    hide Empties;
    assert queues[..0] == [];
    assert queues[..n + 1] == queues[..n] + [queues[n]];
  }

  lemma PairBack(i: u32, slot: Slot, c: seq<Cell>, p: nat)
    requires i < NFQ_MAX_QUEUES && slot.Queue? && At(c, p, EncSlot(i, slot))
    ensures DecPair(c, p) == Got((i, slot), p + 2)
  {
    AtCells(c, p, EncSlot(i, slot));
  }

  lemma SlotLength(i: u32, slot: Slot)
    ensures |EncSlot(i, slot)| == if slot.Queue? then 2 else 0
  {
  }

  lemma {:induction false} SlotsBack(queues: seq<Slot>, n: nat, c: seq<Cell>, p: nat)
    requires n <= |queues| == NFQ_MAX_QUEUES && At(c, p, EncSlots(queues, n))
    ensures DecPairs(Used(queues, n), c, p) == Got(Filled(queues, n), p + |EncSlots(queues, n)|)
    decreases n
  {
    hide At, Empties, Filled, DecPair, EncSlot;
    if n == 0 {
      FilledStep(queues, 0);
    } else {
      var slot, q := queues[n - 1], p + |EncSlots(queues, n - 1)|;
      AtSplit(c, p, EncSlots(queues, n - 1), EncSlot(n - 1, slot));
      SlotsBack(queues, n - 1, c, p);
      FilledStep(queues, n - 1);
      SlotLength(n - 1, slot);
      if slot.Queue? {
        PairBack(n - 1, slot, c, q);
      }
    }
  }

  // Every slot comes back, used or empty, and the cursor ends right after the cells written.
  lemma CtxRoundTrip(ctx: NfqCtx, c: seq<Cell>, p: nat)
    requires |ctx.queues| == 64 && At(c, p, EncCtx(ctx))
    ensures DecCtx(c, p) == Got(ctx, p + |EncCtx(ctx)|)
  {
    hide EncSlots, DecPairs, Used, At, Empties;
    var head := [U32(ctx.seqNo), U32(Used(ctx.queues, NFQ_MAX_QUEUES))];
    AtSplit(c, p, head, EncSlots(ctx.queues, NFQ_MAX_QUEUES));
    AtCells(c, p, head);
    SlotsBack(ctx.queues, NFQ_MAX_QUEUES, c, p + 2);
    assert ctx.queues[..NFQ_MAX_QUEUES] + Empties(0) == ctx.queues;
  }

  lemma {:induction false} PairsStable(k: nat, c: seq<Cell>, c2: seq<Cell>, p: nat)
    requires c <= c2 && p <= |c| && DecPairs(k, c, p).Got?
    ensures DecPairs(k, c, p).pos <= |c| && DecPairs(k, c2, p) == DecPairs(k, c, p)
    decreases k
  {
    if k > 0 { PairsStable(k - 1, c, c2, p); }
  }

  lemma CtxPrefixRejected(ctx: NfqCtx, k: nat)
    requires |ctx.queues| == 64 && k < |EncCtx(ctx)|
    ensures DecCtx(EncCtx(ctx)[..k], 0).Fail?
  {
    hide EncCtx, DecPairs;
    var e := EncCtx(ctx);
    var c := e[..k];
    assert At(e, 0, e);
    CtxRoundTrip(ctx, e, 0);
    if DecCtx(c, 0).Got? {
      assert c[0] == e[0] && c[1] == e[1];
      PairsStable(c[1].u32, c, e, 2);
      assert false;
    }
  }

  // ---------------------------------------------------------------- writer and reader on a parcel

  method WriteCtx(parcel: Parcel, ctx: NfqCtx) returns (ok: bool)
    requires parcel.Valid() && WellFormed(ctx)
    modifies parcel`cells
    ensures parcel.Valid() && Wrote(old(parcel.cells), parcel.cells, parcel.budget, EncCtx(ctx), ok)
  {
    hide EncSlots;
    ghost var before, slots := parcel.cells, EncSlots(ctx.queues, NFQ_MAX_QUEUES);
    var count := 0;
    for i := 0 to NFQ_MAX_QUEUES
      invariant count == Used(ctx.queues, i)
    {
      if ctx.queues[i].Queue? {
        count := count + 1;
      }
    }
    var head := [U32(ctx.seqNo), U32(count)];
    ok := parcel.WriteEach(head);
    if !ok {
      WroteFailed(before, parcel.cells, parcel.budget, head, slots);
      return;
    }
    ghost var c := parcel.cells;
    ok := WriteSlots(parcel, ctx.queues);
    WroteThen(before, c, parcel.cells, parcel.budget, head, slots, ok);
  }

  method WriteSlots(parcel: Parcel, queues: seq<Slot>) returns (ok: bool)
    requires parcel.Valid() && |queues| == NFQ_MAX_QUEUES
    modifies parcel`cells
    ensures parcel.Valid()
    ensures Wrote(old(parcel.cells), parcel.cells, parcel.budget, EncSlots(queues, NFQ_MAX_QUEUES), ok)
  {
    ghost var before := parcel.cells;
    ok := true;
    for i := 0 to NFQ_MAX_QUEUES
      invariant parcel.Valid() && ok
      invariant Wrote(before, parcel.cells, parcel.budget, EncSlots(queues, i), true)
    {
      ghost var c := parcel.cells;
      if queues[i].Queue? {
        ok := parcel.WriteEach([U32(i), U16(queues[i].queueNum)]);
        WroteThen(before, c, parcel.cells, parcel.budget, EncSlots(queues, i), EncSlot(i, queues[i]), ok);
        if !ok {
          ghost var rest := SlotsRest(queues, i + 1, NFQ_MAX_QUEUES);
          WroteFailed(before, parcel.cells, parcel.budget, EncSlots(queues, i + 1), rest);
          return;
        }
      }
      assert EncSlots(queues, i + 1) == EncSlots(queues, i) + EncSlot(i, queues[i]);
    }
  }

  lemma {:induction false} SlotsRest(queues: seq<Slot>, i: nat, n: nat) returns (rest: seq<Cell>)
    requires i <= n <= |queues| == NFQ_MAX_QUEUES
    ensures EncSlots(queues, n) == EncSlots(queues, i) + rest
    decreases n
  {
    if i == n {
      rest := [];
    } else {
      rest := SlotsRest(queues, i, n - 1);
      rest := rest + EncSlot(n - 1, queues[n - 1]);
    }
  }

  // Reads any parcel whatever into a fixed array; that the method verifies is the proof that no
  // slot outside the array is ever touched.
  method ReadCtx(parcel: Parcel) returns (r: Read<NfqCtx>)
    modifies parcel`cursor
    ensures r == DecCtx(parcel.cells, old(parcel.cursor)) && parcel.cursor == r.pos
  {
    hide Empties, DecPair;
    ghost var p0 := parcel.cursor;
    var seqNo := parcel.ReadEach(ReadU32);
    if seqNo.Fail? { return Fail(seqNo.pos); }
    var count := parcel.ReadEach(ReadU32);
    if count.Fail? { return Fail(count.pos); }
    var queues := new Slot[NFQ_MAX_QUEUES](i => Empty);
    assert queues[..] == Empties(NFQ_MAX_QUEUES);
    for i := 0 to count.value
      invariant DecPairs(i, parcel.cells, p0 + 2) == Got(queues[..], parcel.cursor)
    {
      ghost var was := queues[..];
      var pair := ReadPair(parcel);
      if pair.Fail? {
        PairsFail(i + 1, count.value, parcel.cells, p0 + 2);
        return Fail(pair.pos);
      }
      queues[pair.value.0] := pair.value.1;
      assert queues[..] == was[pair.value.0 := pair.value.1];
    }
    return Got(NfqCtx(seqNo.value, queues[..]), parcel.cursor);
  }

  method ReadPair(parcel: Parcel) returns (r: Read<(u32, Slot)>)
    modifies parcel`cursor
    ensures r == DecPair(parcel.cells, old(parcel.cursor)) && parcel.cursor == r.pos
  {
    var index: Read<u32> := parcel.ReadEach(ReadU32);
    if index.Fail? { return Fail(index.pos); }
    if index.value >= NFQ_MAX_QUEUES { return Fail(index.pos); }
    var queueNum: Read<u16> := parcel.ReadEach(ReadU16);
    if queueNum.Fail? { return Fail(queueNum.pos); }
    return Got((index.value, Queue(queueNum.value)), parcel.cursor);
  }

  lemma {:induction false} PairsFail(i: nat, n: nat, c: seq<Cell>, p: nat)
    requires i <= n && DecPairs(i, c, p).Fail?
    ensures DecPairs(n, c, p) == DecPairs(i, c, p)
    decreases n
  {
    if i < n { PairsFail(i, n - 1, c, p); }
  }
}
