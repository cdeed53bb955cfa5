/**
  The message buffer of the IPC layer and the list layout shared by its hand-written codecs.

  A parcel is a sequence of typed cells with a read cursor.  A read fails, without moving the
  cursor, at the end of the parcel or on a cell of another type.  A write may fail at any point;
  since every writer gives up at its first failing write, all that matters is how many writes
  succeed, which is the parcel's budget.
*/
module Parcels {
  import opened Powers
  import opened Sequences

  type u8 = x: int | 0 <= x < 0x100
  type u16 = x: int | 0 <= x < 0x1_0000
  type u32 = x: int | 0 <= x < TWO_32
  type i32 = x: int | -0x8000_0000 <= x < 0x8000_0000

  datatype Cell = U8(u8: u8) | U16(u16: u16) | U32(u32: u32) | I32(i32: i32) | Flag(flag: bool) | Str(str: string)

  // The result of a read that starts at some cursor: the cursor after it, and the value read.
  datatype Read<+T> = Fail(pos: nat) | Got(value: T, pos: nat)
  {
    predicate IsFailure() { Fail? }
    function PropagateFailure<U>(): Read<U> requires Fail? { Fail(pos) }
    function Extract(): (T, nat) requires Got? { (value, pos) }
  }

  type Decoder<!T> = (seq<Cell>, nat) -> Read<T>

  function ReadU8(c: seq<Cell>, p: nat): Read<u8> {
    if p < |c| && c[p].U8? then Got(c[p].u8, p + 1) else Fail(p)
  }
  function ReadU16(c: seq<Cell>, p: nat): Read<u16> {
    if p < |c| && c[p].U16? then Got(c[p].u16, p + 1) else Fail(p)
  }
  function ReadU32(c: seq<Cell>, p: nat): Read<u32> {
    if p < |c| && c[p].U32? then Got(c[p].u32, p + 1) else Fail(p)
  }
  function ReadI32(c: seq<Cell>, p: nat): Read<i32> {
    if p < |c| && c[p].I32? then Got(c[p].i32, p + 1) else Fail(p)
  }
  function ReadBool(c: seq<Cell>, p: nat): Read<bool> {
    if p < |c| && c[p].Flag? then Got(c[p].flag, p + 1) else Fail(p)
  }
  function ReadString(c: seq<Cell>, p: nat): Read<string> {
    if p < |c| && c[p].Str? then Got(c[p].str, p + 1) else Fail(p)
  }

  // ---------------------------------------------------------------- what codecs have to satisfy

  // The cells e lie in c from position p on; what surrounds them is arbitrary.
  ghost predicate At(c: seq<Cell>, p: nat, e: seq<Cell>) {
    p + |e| <= |c| && c[p..p + |e|] == e
  }

  lemma AtCells(c: seq<Cell>, p: nat, e: seq<Cell>)
    requires At(c, p, e)
    ensures p + |e| <= |c|
    ensures forall j :: p <= j < p + |e| ==> c[j] == e[j - p]
  {
    forall j | p <= j < p + |e| ensures c[j] == e[j - p] {
      assert c[p..p + |e|][j - p] == c[j];
    }
  }

  lemma AtCell(c: seq<Cell>, p: nat, x: Cell)
    requires At(c, p, [x])
    ensures p < |c| && c[p] == x
  {
    assert c[p..p + 1][0] == c[p];
  }

  lemma AtSplit(c: seq<Cell>, p: nat, a: seq<Cell>, b: seq<Cell>)
    requires At(c, p, a + b)
    ensures At(c, p, a) && At(c, p + |a|, b)
  {
    var q := p + |a|;
    assert c[p..q] == c[p..q + |b|][..|a|] == (a + b)[..|a|] == a;
    assert c[q..q + |b|] == c[p..q + |b|][|a|..] == (a + b)[|a|..] == b;
  }

  // Decoding what enc wrote gives back norm of the value and consumes exactly the cells written.
  ghost predicate RoundTrips<T(!new)>(enc: T -> seq<Cell>, dec: Decoder<T>, norm: T -> T) {
    forall x, c, p: nat :: At(c, p, enc(x)) ==> dec(c, p) == Got(norm(x), p + |enc(x)|)
  }

  // A successful read looks at nothing beyond the cursor it returns, so more cells change nothing.
  ghost predicate Stable<T(!new)>(dec: Decoder<T>) {
    forall c, c2, p: nat :: c <= c2 && dec(c, p).Got? ==> dec(c, p).pos <= |c| && dec(c2, p) == dec(c, p)
  }

  // No strict prefix of a message can be read, when reading the message itself takes all of it.
  lemma PrefixRejected<T(!new)>(dec: Decoder<T>, e: seq<Cell>, k: nat)
    requires Stable(dec) && k < |e|
    requires dec(e, 0).Got? ==> dec(e, 0).pos == |e|
    ensures dec(e[..k], 0).Fail?
  {
    assert e[..k] <= e;
  }

  // ---------------------------------------------------------------- lists

  function Min(a: nat, b: nat): nat { if a < b then a else b }

  // The number of elements a writer announces: the 32-bit size of the list, capped.
  function Announced(len: nat, max: nat): nat { Min(max, len % TWO_32) }

  function EncAll<T>(enc: T -> seq<Cell>, xs: seq<T>): seq<Cell> {
    if xs == [] then [] else EncAll(enc, xs[..|xs| - 1]) + enc(xs[|xs| - 1])
  }

  lemma EncAllEmpty<T>(enc: T -> seq<Cell>)
    ensures EncAll(enc, []) == []
  {
  }

  lemma EncAllSnoc<T>(enc: T -> seq<Cell>, xs: seq<T>, i: nat)
    requires i < |xs|
    ensures EncAll(enc, xs[..i + 1]) == EncAll(enc, xs[..i]) + enc(xs[i])
  {
    assert xs[..i + 1][..i] == xs[..i];
  }

  function EncList<T>(enc: T -> seq<Cell>, max: u32, xs: seq<T>): seq<Cell> {
    [U32(Announced(|xs|, max))] + EncAll(enc, xs[..Announced(|xs|, max)])
  }

  function DecAll<T>(dec: Decoder<T>, n: nat, c: seq<Cell>, p: nat): Read<seq<T>> {
    if n == 0 then Got([], p)
    else
      var (xs, p1) :- DecAll(dec, n - 1, c, p);
      var (x, p2) :- dec(c, p1);
      Got(xs + [x], p2)
  }

  function DecList<T>(dec: Decoder<T>, max: u32, c: seq<Cell>, p: nat): Read<seq<T>> {
    var (size, p1) :- ReadU32(c, p);
    DecAll(dec, Min(size, max), c, p1)
  }

  function MapAll<T>(f: T -> T, xs: seq<T>): (r: seq<T>)
    ensures |r| == |xs| && forall i :: 0 <= i < |xs| ==> r[i] == f(xs[i])
  {
    seq(|xs|, i requires 0 <= i < |xs| => f(xs[i]))
  }

  function Same<T>(x: T): T { x }

  lemma MapSame<T>(xs: seq<T>)
    ensures MapAll(Same, xs) == xs
  {
  }

  lemma {:induction false} AllRoundTrip<T(!new)>(enc: T -> seq<Cell>, dec: Decoder<T>, norm: T -> T,
                                                xs: seq<T>, c: seq<Cell>, p: nat)
    requires RoundTrips(enc, dec, norm) && At(c, p, EncAll(enc, xs))
    ensures DecAll(dec, |xs|, c, p) == Got(MapAll(norm, xs), p + |EncAll(enc, xs)|)
    decreases |xs|
  {
    hide At;
    if xs != [] {
      var front, last := xs[..|xs| - 1], xs[|xs| - 1];
      AtSplit(c, p, EncAll(enc, front), enc(last));
      AllRoundTrip(enc, dec, norm, front, c, p);
      assert MapAll(norm, xs) == MapAll(norm, front) + [norm(last)];
    }
  }

  // The elements announced come back, and whatever follows the list stays aligned.
  lemma ListRoundTrip<T(!new)>(enc: T -> seq<Cell>, dec: Decoder<T>, norm: T -> T, max: u32,
                               xs: seq<T>, c: seq<Cell>, p: nat)
    requires RoundTrips(enc, dec, norm) && At(c, p, EncList(enc, max, xs))
    ensures DecList(dec, max, c, p)
         == Got(MapAll(norm, xs[..Announced(|xs|, max)]), p + |EncList(enc, max, xs)|)
  {
    var n := Announced(|xs|, max);
    AtSplit(c, p, [U32(n)], EncAll(enc, xs[..n]));
    AtCell(c, p, U32(n));
    AllRoundTrip(enc, dec, norm, xs[..n], c, p + 1);
  }

  // The 32-bit size of a list has not wrapped below the cap.
  predicate Aligned(len: nat, max: nat) { len < TWO_32 || len % TWO_32 >= max }

  // The announced size is the number of elements a list has, or the cap: except when the list is
  // so long that its 32-bit size is small again.
  lemma AnnouncedIff(len: nat, max: u32)
    ensures Announced(len, max) == Min(max, len) <==> Aligned(len, max)
  {
  }

  // Writers that announce the capped 32-bit size but stop their loop on a count of their own.
  function EncCapped<T>(enc: T -> seq<Cell>, max: u32, xs: seq<T>): seq<Cell> {
    [U32(Announced(|xs|, max))] + EncAll(enc, xs[..Min(max, |xs|)])
  }

  // A list of which n elements were announced and m >= n were written.
  lemma PartOfList<T(!new)>(enc: T -> seq<Cell>, dec: Decoder<T>, norm: T -> T, max: u32,
                            xs: seq<T>, n: u32, m: nat, c: seq<Cell>, p: nat)
    requires RoundTrips(enc, dec, norm) && n <= m <= |xs| && n <= max
    requires forall x :: enc(x) != []
    requires At(c, p, [U32(n)] + EncAll(enc, xs[..m]))
    ensures var r := DecList(dec, max, c, p);
            && r.Got? && r.value == MapAll(norm, xs[..n])
            && (r.pos == p + 1 + |EncAll(enc, xs[..m])| <==> n == m)
            && (n < m ==> At(c, r.pos, enc(xs[n])))
  {
    hide At, EncAll, RoundTrips;
    var rest := PrefixOfAll(enc, xs, n, m);
    AtSplit(c, p, [U32(n)], EncAll(enc, xs[..m]));
    AtCell(c, p, U32(n));
    AtSplit(c, p + 1, EncAll(enc, xs[..n]), rest);
    AllRoundTrip(enc, dec, norm, xs[..n], c, p + 1);
    if n < m {
      var more := PrefixOfAll(enc, xs, n + 1, m);
      EncAllSnoc(enc, xs, n);
      assert rest == enc(xs[n]) + more by {
        AppendInjective(EncAll(enc, xs[..n]), rest, enc(xs[n]) + more);
      }
      AtSplit(c, p + 1 + |EncAll(enc, xs[..n])|, enc(xs[n]), more);
    }
  }

  // The reader takes what was announced; it ends where the writer ended iff size and count
  // agree, and otherwise right before the first element that was not announced.
  lemma CappedRoundTrip<T(!new)>(enc: T -> seq<Cell>, dec: Decoder<T>, norm: T -> T, max: u32,
                                 xs: seq<T>, c: seq<Cell>, p: nat)
    requires RoundTrips(enc, dec, norm) && At(c, p, EncCapped(enc, max, xs))
    requires forall x :: enc(x) != []
    ensures var r := DecList(dec, max, c, p);
            && r.Got? && r.value == MapAll(norm, xs[..Announced(|xs|, max)])
            && (r.pos == p + |EncCapped(enc, max, xs)| <==> Aligned(|xs|, max))
            && (r.pos != p + |EncCapped(enc, max, xs)| ==>
                  Announced(|xs|, max) < |xs| && At(c, r.pos, enc(xs[Announced(|xs|, max)])))
  {
    hide At, EncAll, RoundTrips, DecList;
    AnnouncedIff(|xs|, max);
    PartOfList(enc, dec, norm, max, xs, Announced(|xs|, max), Min(max, |xs|), c, p);
  }

  lemma {:induction false} AllStable<T(!new)>(dec: Decoder<T>, n: nat, c: seq<Cell>, c2: seq<Cell>, p: nat)
    requires Stable(dec) && c <= c2 && p <= |c| && DecAll(dec, n, c, p).Got?
    ensures DecAll(dec, n, c, p).pos <= |c| && DecAll(dec, n, c2, p) == DecAll(dec, n, c, p)
    decreases n
  {
    if n > 0 {
      AllStable(dec, n - 1, c, c2, p);
      var p1 := DecAll(dec, n - 1, c, p).pos;
      assert dec(c, p1).Got? && dec(c2, p1) == dec(c, p1);
    }
  }

  lemma ListStable<T(!new)>(dec: Decoder<T>, max: u32, c: seq<Cell>, c2: seq<Cell>, p: nat)
    requires Stable(dec) && c <= c2 && DecList(dec, max, c, p).Got?
    ensures DecList(dec, max, c, p).pos <= |c| && DecList(dec, max, c2, p) == DecList(dec, max, c, p)
  {
    AllStable(dec, Min(c[p].u32, max), c, c2, p + 1);
  }

  // ---------------------------------------------------------------- the parcel object

  function Clip(c: seq<Cell>, budget: nat): seq<Cell> {
    if |c| <= budget then c else c[..budget]
  }

  // Writing e after before: success iff the budget allows it, otherwise only a part is written.
  ghost predicate Wrote(before: seq<Cell>, after: seq<Cell>, budget: nat, e: seq<Cell>, ok: bool) {
    (ok <==> |before| + |e| <= budget) && after == Clip(before + e, budget)
  }

  lemma WroteThen(a: seq<Cell>, b: seq<Cell>, c: seq<Cell>, budget: nat, e: seq<Cell>, f: seq<Cell>, ok: bool)
    requires Wrote(a, b, budget, e, true) && Wrote(b, c, budget, f, ok)
    ensures Wrote(a, c, budget, e + f, ok)
  {
    assert (a + e) + f == a + (e + f);
  }

  lemma WroteFailed(a: seq<Cell>, b: seq<Cell>, budget: nat, e: seq<Cell>, f: seq<Cell>)
    requires |a| <= budget && Wrote(a, b, budget, e, false)
    ensures Wrote(a, b, budget, e + f, false)
  {
    assert (a + (e + f))[..budget] == (a + e)[..budget];
  }

  // A further write, made only if the ones before it succeeded.
  lemma WroteNext(a: seq<Cell>, b: seq<Cell>, c: seq<Cell>, budget: nat, e: seq<Cell>, f: seq<Cell>,
                  was: bool, ok: bool)
    requires |a| <= budget && Wrote(a, b, budget, e, was)
    requires if was then Wrote(b, c, budget, f, ok) else c == b && !ok
    ensures Wrote(a, c, budget, e + f, ok)
  {
    if was { WroteThen(a, b, c, budget, e, f, ok); } else { WroteFailed(a, b, budget, e, f); }
  }

  class Parcel {
    const budget: nat
    var cells: seq<Cell>
    var cursor: nat

    ghost predicate Valid()
      reads this
    {
      |cells| <= budget
    }

    constructor (budget: nat)
      ensures Valid() && cells == [] && cursor == 0 && this.budget == budget
    {
      this.budget := budget;
      cells, cursor := [], 0;
    }

    method Write(c: Cell) returns (ok: bool)
      requires Valid()
      modifies this`cells
      ensures Valid() && Wrote(old(cells), cells, budget, [c], ok)
    {
      ok := |cells| < budget;
      if ok {
        cells := cells + [c];
      }
    }

    // A chain of writes that stops at the first failing one.
    method WriteEach(e: seq<Cell>) returns (ok: bool)
      requires Valid()
      modifies this`cells
      ensures Valid() && Wrote(old(cells), cells, budget, e, ok)
    {
      ok := true;
      for i := 0 to |e|
        invariant Valid() && Wrote(old(cells), cells, budget, e[..i], true)
      {
        label before:
        ok := Write(e[i]);
        assert e[..i + 1] == e[..i] + [e[i]];
        if !ok {
          WroteThen(old(cells), old@before(cells), cells, budget, e[..i], [e[i]], false);
          WroteFailed(old(cells), cells, budget, e[..i + 1], e[i + 1..]);
          assert e == e[..i + 1] + e[i + 1..];
          return;
        }
        WroteThen(old(cells), old@before(cells), cells, budget, e[..i], [e[i]], true);
      }
      assert e[..|e|] == e;
    }

    // A chain of reads that stops at the first failing one.
    method ReadEach<T>(dec: Decoder<T>) returns (r: Read<T>)
      modifies this`cursor
      ensures r == dec(cells, old(cursor)) && cursor == r.pos
    {
      r := dec(cells, cursor);
      cursor := r.pos;
    }

    // Size, then the elements, counting them as they are written and leaving at max.
    method WriteCapped<T>(enc: T -> seq<Cell>, max: u32, list: seq<T>) returns (ok: bool)
      requires Valid() && max > 0
      modifies this`cells
      ensures Valid() && Wrote(old(cells), cells, budget, EncCapped(enc, max, list), ok)
    {
      hide EncAll;
      var size := Announced(|list|, max);
      ghost var head := [U32(size)];
      ghost var m := Min(max, |list|);
      ok := Write(U32(size));
      if !ok {
        WroteFailed(old(cells), cells, budget, head, EncAll(enc, list[..m]));
        return;
      }
      EncAllEmpty(enc);
      assert list[..0] == [] && head == head + EncAll(enc, list[..0]);
      var count := 0;
      while count < |list|
        invariant Valid() && ok && 0 <= count <= m && (count < max || count == |list|)
        invariant Wrote(old(cells), cells, budget, head + EncAll(enc, list[..count]), true)
      {
        ghost var before, done := cells, head + EncAll(enc, list[..count]);
        ok := WriteEach(enc(list[count]));
        EncAllSnoc(enc, list, count);
        assert head + EncAll(enc, list[..count + 1]) == done + enc(list[count]);
        WroteThen(old(cells), before, cells, budget, done, enc(list[count]), ok);
        if !ok {
          ghost var rest := PrefixOfAll(enc, list, count + 1, m);
          WroteFailed(old(cells), cells, budget, head + EncAll(enc, list[..count + 1]), rest);
          assert head + EncAll(enc, list[..m]) == head + EncAll(enc, list[..count + 1]) + rest;
          return;
        }
        count := count + 1;
        if count >= max {
          break;
        }
      }
    }

    // Size, then the elements: at most max of them, indexed.
    method WriteList<T>(enc: T -> seq<Cell>, max: u32, list: seq<T>) returns (ok: bool)
      requires Valid()
      modifies this`cells
      ensures Valid() && Wrote(old(cells), cells, budget, EncList(enc, max, list), ok)
    {
      var size := Min(max, |list| % TWO_32);
      ghost var head := [U32(size)];
      ok := Write(U32(size));
      if !ok {
        WroteFailed(old(cells), cells, budget, head, EncAll(enc, list[..size]));
        return;
      }
      assert head == head + EncAll(enc, list[..0]);
      for i := 0 to size
        invariant Valid() && ok
        invariant Wrote(old(cells), cells, budget, head + EncAll(enc, list[..i]), true)
      {
        label before:
        ok := WriteEach(enc(list[i]));
        ghost var done := head + EncAll(enc, list[..i]);
        EncAllSnoc(enc, list, i);
        assert head + EncAll(enc, list[..i + 1]) == done + enc(list[i]);
        WroteThen(old(cells), old@before(cells), cells, budget, done, enc(list[i]), ok);
        if !ok {
          ghost var rest := PrefixOfAll(enc, list, i + 1, size);
          WroteFailed(old(cells), cells, budget, head + EncAll(enc, list[..i + 1]), rest);
          assert head + EncAll(enc, list[..size]) == head + EncAll(enc, list[..i + 1]) + rest;
          return;
        }
      }
    }

    method ReadList<T>(dec: Decoder<T>, max: u32) returns (r: Read<seq<T>>)
      modifies this`cursor
      ensures r == DecList(dec, max, cells, old(cursor)) && cursor == r.pos
    {
      var s := ReadEach(ReadU32);
      if s.Fail? {
        return Fail(s.pos);
      }
      var size := Min(s.value, max);
      var list: seq<T> := [];
      for i := 0 to size
        invariant DecAll(dec, i, cells, old(cursor) + 1) == Got(list, cursor)
      {
        var x := ReadEach(dec);
        if x.Fail? {
          AllFails(dec, i + 1, size, cells, old(cursor) + 1);
          return Fail(x.pos);
        }
        list := list + [x.value];
      }
      return Got(list, cursor);
    }
  }

  lemma {:induction false} PrefixOfAll<T>(enc: T -> seq<Cell>, xs: seq<T>, i: nat, n: nat) returns (rest: seq<Cell>)
    requires i <= n <= |xs|
    ensures EncAll(enc, xs[..n]) == EncAll(enc, xs[..i]) + rest
    decreases n
  {
    if i == n {
      rest := [];
    } else {
      rest := PrefixOfAll(enc, xs, i, n - 1);
      assert xs[..n][..n - 1] == xs[..n - 1];
      rest := rest + enc(xs[n - 1]);
    }
  }

  lemma {:induction false} AllFails<T>(dec: Decoder<T>, i: nat, n: nat, c: seq<Cell>, p: nat)
    requires i <= n && DecAll(dec, i, c, p).Fail?
    ensures DecAll(dec, n, c, p) == DecAll(dec, i, c, p)
    decreases n
  {
    if i < n { AllFails(dec, i, n - 1, c, p); }
  }
}
