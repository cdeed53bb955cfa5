/**
  Handing firewall rules to the native service: the client splits a rule list into pages and sends
  them one by one; the service decodes each page on its own.  A page is the parcel after its
  interface token.
*/
module FirewallPager {
  import opened Parcels
  import opened FirewallCodec
  import opened Powers

  const FIREWALL_IPC_IP_RULE_PAGE_SIZE: nat := 300
  const FIREWALL_RULE_SIZE_MAX: nat := 1000

  function PageSize(kind: i32): (n: nat)
    ensures n > 0
  {
    if kind == RULE_IP then FIREWALL_IPC_IP_RULE_PAGE_SIZE else FIREWALL_RULE_SIZE_MAX
  }

  // ---------------------------------------------------------------- pages as values

  function Chunks<T>(xs: seq<T>, n: nat): seq<seq<T>>
    requires n > 0
    decreases |xs|
  {
    if xs == [] then [] else [xs[..Min(|xs|, n)]] + Chunks(xs[Min(|xs|, n)..], n)
  }

  function Flatten<T>(xss: seq<seq<T>>): seq<T> {
    if xss == [] then [] else xss[0] + Flatten(xss[1..])
  }

  function Page(kind: i32, rules: seq<BaseRule>, finish: bool): seq<Cell>
    requires |rules| < TWO_32
  {
    [I32(kind), U32(|rules|), Flag(finish)] + EncAll(EncBase, rules)
  }

  function Pages(kind: i32, rules: seq<BaseRule>, n: nat): seq<seq<Cell>>
    requires 0 < n < TWO_32
    decreases |rules|
  {
    if rules == [] then []
    else
      var m := Min(|rules|, n);
      [Page(kind, rules[..m], m == |rules|)] + Pages(kind, rules[m..], n)
  }

  // The chunks are the list in order; all are full except perhaps the last, which is not empty;
  // and there are as many as it takes.
  lemma {:induction false} ChunksPartition<T>(xs: seq<T>, n: nat)
    requires n > 0
    ensures Flatten(Chunks(xs, n)) == xs
    ensures forall i :: 0 <= i < |Chunks(xs, n)| ==> 1 <= |Chunks(xs, n)[i]| <= n
    ensures forall i :: 0 <= i < |Chunks(xs, n)| - 1 ==> |Chunks(xs, n)[i]| == n
    decreases |xs|
  {
    if xs != [] {
      var m := Min(|xs|, n);
      ChunksPartition(xs[m..], n);
      assert Chunks(xs, n)[1..] == Chunks(xs[m..], n);
      assert xs == xs[..m] + xs[m..];
    }
  }

  lemma OneMoreTimes(k: nat, n: nat)
    ensures (k + 1) * n == k * n + n
  {
  }

  lemma {:induction false} ChunksCount<T>(xs: seq<T>, n: nat)
    requires n > 0
    ensures |xs| <= |Chunks(xs, n)| * n < |xs| + n
    decreases |xs|
  {
    if xs != [] {
      var m := Min(|xs|, n);
      var k := |Chunks(xs[m..], n)|;
      ChunksCount(xs[m..], n);
      OneMoreTimes(k, n);
    }
  }

  // Page i carries chunk i, and is marked as the last one exactly when it is.
  lemma {:induction false} PagesAreChunks(kind: i32, rules: seq<BaseRule>, n: nat)
    requires 0 < n < TWO_32
    ensures |Pages(kind, rules, n)| == |Chunks(rules, n)|
    ensures forall i :: 0 <= i < |Chunks(rules, n)| ==>
              && |Chunks(rules, n)[i]| <= n
              && Pages(kind, rules, n)[i] == Page(kind, Chunks(rules, n)[i], i == |Chunks(rules, n)| - 1)
    decreases |rules|
  {
    if rules != [] {
      var m := Min(|rules|, n);
      PagesAreChunks(kind, rules[m..], n);
      assert Pages(kind, rules, n)[1..] == Pages(kind, rules[m..], n);
      assert Chunks(rules, n)[1..] == Chunks(rules[m..], n);
      assert m == |rules| <==> |Chunks(rules, n)| == 1;
    }
  }

  // IP rules (type 1) go out 300 to a page, all others 1000 to a page.
  lemma PagesNeeded(kind: i32, rules: seq<BaseRule>)
    ensures var n := if kind == 1 then 300 else 1000;
            |rules| <= |Pages(kind, rules, PageSize(kind))| * n < |rules| + n
  {
    PagesAreChunks(kind, rules, PageSize(kind));
    ChunksCount(rules, PageSize(kind));
  }

  // ---------------------------------------------------------------- the loop of the client

  // The loop counts what is left to send in 32 bits.
  function Remain(left: nat): (r: nat)
    ensures r <= left && r < TWO_32
  {
    left % TWO_32
  }

  // How many rules one turn takes when left are still to send.
  function Turn(left: nat, n: nat): nat { Min(Remain(left), n) }

  // Whether that turn marks its page as the last one.
  predicate Marked(left: nat, n: nat) { Turn(left, n) == Remain(left) }

  // How many of len rules are left after m turns.
  function Left(len: nat, n: nat, m: nat): (left: nat)
    ensures left <= len
  {
    if m == 0 then len else Left(len, n, m - 1) - Turn(Left(len, n, m - 1), n)
  }

  lemma ShortRemain(left: nat)
    requires left < TWO_32
    ensures Remain(left) == left
  {
  }

  // The page sent in turn m.
  function PageAt(kind: i32, rules: seq<BaseRule>, n: nat, m: nat): seq<Cell>
    requires n < TWO_32
  {
    var left := Left(|rules|, n, m);
    Page(kind, rules[|rules| - left..][..Turn(left, n)], Marked(left, n))
  }

  // The loop is over after m turns, and only the last of them was marked.
  ghost predicate EndsAt(len: nat, n: nat, m: nat) {
    && Left(len, n, m) == 0
    && forall i :: 0 <= i < m ==> Left(len, n, i) > 0 && (Marked(Left(len, n, i), n) <==> i == m - 1)
  }

  lemma {:induction false} LeftAfterOne(len: nat, n: nat, m: nat)
    ensures Left(len, n, m + 1) == Left(len - Turn(len, n), n, m)
    decreases m
  {
    if m > 0 {
      LeftAfterOne(len, n, m - 1);
    } else {
      assert Left(len, n, 0) == len;
    }
  }

  lemma {:induction false} ShortEnds(len: nat, n: nat) returns (m: nat)
    requires len < TWO_32 && n > 0
    ensures EndsAt(len, n, m)
    decreases len
  {
    if len == 0 {
      m := 0;
    } else {
      hide Remain;
      ShortRemain(len);
      var rest := len - Turn(len, n);
      var k := ShortEnds(rest, n);
      m := k + 1;
      LeftAfterOne(len, n, k);
      forall i | 0 <= i < m
        ensures Left(len, n, i) > 0 && (Marked(Left(len, n, i), n) <==> i == m - 1)
      {
        if i > 0 { LeftAfterOne(len, n, i - 1); }
      }
    }
  }

  // A length of 2^32 or more never falls below it.
  lemma {:induction false} LongStays(len: nat, n: nat, m: nat)
    requires len >= TWO_32
    ensures Left(len, n, m) >= TWO_32
    decreases m
  {
    if m > 0 {
      LongStays(len, n, m - 1);
    }
  }

  // The loop ends, with the mark on exactly its last page, iff there are fewer than 2^32 rules.
  lemma LoopEndsIff(len: nat, n: nat)
    requires n > 0
    ensures (exists m :: EndsAt(len, n, m)) <==> len < TWO_32
  {
    if len < TWO_32 {
      var m := ShortEnds(len, n);
    } else {
      forall m: nat ensures !EndsAt(len, n, m) { LongStays(len, n, m); }
    }
  }

  // With 2^32 rules or more some page is marked as the last one while 2^32 rules are left, and
  // every later turn sends an empty page, marked too.
  lemma {:induction false} LongRepeats(len: nat, n: nat) returns (m: nat)
    requires len >= TWO_32 && n > 0
    ensures Marked(Left(len, n, m), n) && Left(len, n, m) >= TWO_32
    ensures forall i :: i > m ==> Turn(Left(len, n, i), n) == 0 && Marked(Left(len, n, i), n)
    decreases len
  {
    if Remain(len) <= n {
      m := 0;
      assert Left(len, n, m) == len;
      forall i: nat | i > 0 ensures Turn(Left(len, n, i), n) == 0 && Marked(Left(len, n, i), n) {
        StuckFrom(len, n, i - 1);
      }
    } else {
      var rest := len - Turn(len, n);
      LongStays(len, n, 1);
      var k := LongRepeats(rest, n);
      m := k + 1;
      LeftAfterOne(len, n, k);
      forall i: nat | i > m ensures Turn(Left(len, n, i), n) == 0 && Marked(Left(len, n, i), n) {
        LeftAfterOne(len, n, i - 1);
      }
    }
  }

  lemma {:induction false} StuckFrom(len: nat, n: nat, i: nat)
    requires Remain(len) <= n
    ensures Left(len, n, i + 1) == len - Remain(len)
    ensures Turn(Left(len, n, i + 1), n) == 0 && Marked(Left(len, n, i + 1), n)
    decreases i
  {
    if i > 0 {
      StuckFrom(len, n, i - 1);
    } else {
      assert Left(len, n, 0) == len;
    }
  }

  lemma PagesFrom(kind: i32, rules: seq<BaseRule>, it: nat, n: nat)
    requires it <= |rules| && 0 < n < TWO_32
    ensures var m := Min(|rules| - it, n);
            Pages(kind, rules[it..], n) ==
              if it == |rules| then []
              else [Page(kind, rules[it..][..m], m == |rules| - it)] + Pages(kind, rules[it + m..], n)
  {
    var m := Min(|rules| - it, n);
    assert rules[it..][m..] == rules[it + m..];
  }

  // Turn by turn a short list is sent as its pages.
  lemma {:induction false} TurnsArePages(kind: i32, rules: seq<BaseRule>, n: nat, m: nat)
    requires |rules| < TWO_32 && 0 < n < TWO_32 && m <= |Pages(kind, rules, n)|
    ensures Pages(kind, rules, n)[m..] == Pages(kind, rules[|rules| - Left(|rules|, n, m)..], n)
    decreases m
  {
    hide Page, Remain, Pages;
    if m == 0 {
      assert rules[0..] == rules;
    } else {
      ShortRemain(Left(|rules|, n, m - 1));
      TurnsArePages(kind, rules, n, m - 1);
      var from := |rules| - Left(|rules|, n, m - 1);
      PagesFrom(kind, rules, from, n);
      assert Pages(kind, rules, n)[m..] == Pages(kind, rules, n)[m - 1..][1..];
    }
  }

  lemma TurnIsPage(kind: i32, rules: seq<BaseRule>, n: nat, m: nat)
    requires |rules| < TWO_32 && 0 < n < TWO_32 && m <= |Pages(kind, rules, n)|
    ensures Left(|rules|, n, m) == 0 <==> m == |Pages(kind, rules, n)|
    ensures m < |Pages(kind, rules, n)| ==> PageAt(kind, rules, n, m) == Pages(kind, rules, n)[m]
  {
    hide Page, Remain, Pages;
    TurnsArePages(kind, rules, n, m);
    ShortRemain(Left(|rules|, n, m));
    var from := |rules| - Left(|rules|, n, m);
    PagesFrom(kind, rules, from, n);
    if m < |Pages(kind, rules, n)| {
      assert Pages(kind, rules, n)[m..][0] == Pages(kind, rules, n)[m];
    }
  }

  lemma LeftNone(len: nat, n: nat)
    ensures Left(len, n, 0) == len
  {
  }

  // The turn the loop takes when it has come to rule it.
  lemma TurnFrom(kind: i32, rules: seq<BaseRule>, n: nat, m: nat, it: nat)
    requires n < TWO_32 && it <= |rules| && Left(|rules|, n, m) == |rules| - it
    ensures var remain := Remain(|rules| - it);
            var offset := Min(remain, n);
            && it + offset <= |rules|
            && PageAt(kind, rules, n, m) == Page(kind, rules[it..][..offset], offset == remain)
            && Left(|rules|, n, m + 1) == |rules| - (it + offset)
  {
    hide Page, Remain;
  }

  // A loop that has sent everything was given fewer than 2^32 rules and sent exactly their pages.
  lemma SuccessMeansAllPages(kind: i32, rules: seq<BaseRule>, sent: seq<seq<Cell>>)
    requires var n := PageSize(kind);
             && Left(|rules|, n, |sent|) == 0
             && forall i :: 0 <= i < |sent| ==>
                  Left(|rules|, n, i) > 0 && sent[i] == PageAt(kind, rules, n, i)
    ensures |rules| < TWO_32 && sent == Pages(kind, rules, PageSize(kind))
  {
    hide PageAt, Pages;
    var n := PageSize(kind);
    if |rules| >= TWO_32 { LongStays(|rules|, n, |sent|); }
    var all := Pages(kind, rules, n);
    if |sent| > |all| {
      TurnIsPage(kind, rules, n, |all|);
    } else {
      TurnIsPage(kind, rules, n, |sent|);
      forall i | 0 <= i < |sent| ensures sent[i] == all[i] { TurnIsPage(kind, rules, n, i); }
    }
  }

  // ---------------------------------------------------------------- the client

  // AwaitingAnswer: a page has been sent and its answer has not come.
  datatype Outcome = Success | FlattenError | WriteRuleFailed | SendFailed(code: int) | AwaitingAnswer

  // The i-th request is answered with answers[i]; a parcel takes budget cells.
  method SetFirewallRules(kind: i32, rules: seq<BaseRule>, budget: nat, answers: seq<int>)
    returns (outcome: Outcome, sent: seq<seq<Cell>>)
    ensures var n := PageSize(kind);
            && (forall i :: 0 <= i < |sent| ==>
                  Left(|rules|, n, i) > 0 && sent[i] == PageAt(kind, rules, n, i) && |sent[i]| <= budget)
            && (forall i :: 0 <= i < |sent| && i < |answers| ==>
                  answers[i] == 0 || (i == |sent| - 1 && outcome == SendFailed(answers[i])))
            && (outcome.Success? <==> Left(|rules|, n, |sent|) == 0 && |sent| <= |answers|
                                      && forall i :: 0 <= i < |sent| ==> answers[i] == 0)
            && (outcome.Success? ==> |rules| < TWO_32 && sent == Pages(kind, rules, n))
            && (outcome.SendFailed? ==> 0 < |sent| <= |answers| && answers[|sent| - 1] == outcome.code != 0)
            && (outcome.AwaitingAnswer? ==> |sent| == |answers| + 1)
            && (outcome.FlattenError? || outcome.WriteRuleFailed? ==>
                  |sent| <= |answers| && Left(|rules|, n, |sent|) > 0
                  && |PageAt(kind, rules, n, |sent|)| > budget)
  {
    hide Page, Left, PageAt, Remain;
    var pageSize := PageSize(kind);
    sent := [];
    var it := 0;
    assert Left(|rules|, pageSize, 0) == |rules| by { LeftNone(|rules|, pageSize); }
    while it < |rules|
      invariant |sent| <= |answers|
      invariant Left(|rules|, pageSize, |sent|) == |rules| - it
      invariant forall i :: 0 <= i < |sent| ==>
                  && Left(|rules|, pageSize, i) > 0 && answers[i] == 0
                  && sent[i] == PageAt(kind, rules, pageSize, i) && |sent[i]| <= budget
      decreases |answers| + 1 - |sent|
    {
      var remain := Remain(|rules| - it);
      var offset := Min(remain, pageSize);
      TurnFrom(kind, rules, pageSize, |sent|, it);
      var written, data := WritePage(kind, rules[it..][..offset], offset == remain, budget);
      if !written.Success? {
        return written, sent;
      }
      sent := sent + [data];
      if |sent| > |answers| {
        return AwaitingAnswer, sent;
      }
      var ret := answers[|sent| - 1];
      if ret != 0 {
        return SendFailed(ret), sent;
      }
      it := it + offset;
    }
    SuccessMeansAllPages(kind, rules, sent);
    return Success, sent;
  }

  // One page: its header, then the rules one after the other.
  method WritePage(kind: i32, rules: seq<BaseRule>, finish: bool, budget: nat)
    returns (outcome: Outcome, cells: seq<Cell>)
    requires |rules| < TWO_32
    ensures outcome.Success? <==> |Page(kind, rules, finish)| <= budget
    ensures outcome.Success? ==> cells == Page(kind, rules, finish)
    ensures outcome.FlattenError? <==> budget < 3
    ensures !outcome.SendFailed? && !outcome.AwaitingAnswer?
  {
    hide EncBase, EncAll;
    var data := new Parcel(budget);
    var head := [I32(kind), U32(|rules|), Flag(finish)];
    var ok := data.WriteEach(head);
    if !ok {
      return FlattenError, data.cells;
    }
    EncAllEmpty(EncBase);
    assert rules[..0] == [];
    assert head == head + EncAll(EncBase, rules[..0]);
    for i := 0 to |rules|
      invariant data.Valid() && data.budget == budget && data.cells == head + EncAll(EncBase, rules[..i])
    {
      EncAllSnoc(EncBase, rules, i);
      ok := data.WriteEach(EncBase(rules[i]));
      if !ok {
        ghost var rest := PrefixOfAll(EncBase, rules, i + 1, |rules|);
        assert rules[..|rules|] == rules;
        return WriteRuleFailed, data.cells;
      }
    }
    assert rules[..|rules|] == rules;
    return Success, data.cells;
  }

  // ---------------------------------------------------------------- the service

  datatype Received = Rejected | Received(kind: i32, rules: seq<BaseRule>, finish: bool)

  // The rules of a page; one that cannot be read is skipped.
  function ReadRules(kind: i32, n: nat, c: seq<Cell>, p: nat): (seq<BaseRule>, nat) {
    if n == 0 then ([], p)
    else
      var (rules, p) := ReadRules(kind, n - 1, c, p);
      match DecBase(kind, c, p)
      case Got(r, p) => (rules + [r], p)
      case Fail(p) => (rules, p)
  }

  function ReceivePage(c: seq<Cell>): Received {
    var kind := ReadI32(c, 0);
    if kind.Fail? then Rejected else
    var size := ReadU32(c, kind.pos);
    if size.Fail? || size.value > PageSize(kind.value) then Rejected else
    var finish := ReadBool(c, size.pos);
    if finish.Fail? then Rejected else
    Received(kind.value, ReadRules(kind.value, size.value, c, finish.pos).0, finish.value)
  }

  // The loop of the service over a page it has received.
  method CmdSetFirewallRules(parcel: Parcel) returns (r: Received)
    requires parcel.cursor == 0
    modifies parcel`cursor
    ensures r == ReceivePage(parcel.cells)
  {
    hide DecBase;
    var kind: Read<i32> := parcel.ReadEach(ReadI32);
    if kind.Fail? { return Rejected; }
    var size: Read<u32> := parcel.ReadEach(ReadU32);
    if size.Fail? || size.value > PageSize(kind.value) { return Rejected; }
    var finish: Read<bool> := parcel.ReadEach(ReadBool);
    if finish.Fail? { return Rejected; }
    var rules: seq<BaseRule> := [];
    for i := 0 to size.value
      invariant ReadRules(kind.value, i, parcel.cells, finish.pos) == (rules, parcel.cursor)
    {
      var rule: Read<BaseRule> := parcel.ReadEach((c, p) => DecBase(kind.value, c, p));
      if rule.Got? {
        rules := rules + [rule.value];
      }
    }
    return Received(kind.value, rules, finish.value);
  }

  ghost predicate Sendable(kind: i32, rules: seq<BaseRule>) {
    forall r :: r in rules ==> KindOf(r) == kind && ValidBase(r)
  }

  lemma {:induction false} ReadRulesBack(kind: i32, rules: seq<BaseRule>, c: seq<Cell>, p: nat)
    requires Sendable(kind, rules) && At(c, p, EncAll(EncBase, rules))
    ensures ReadRules(kind, |rules|, c, p) == (MapAll(NormBase, rules), p + |EncAll(EncBase, rules)|)
    decreases |rules|
  {
    hide EncBase, DecBase, NormBase, At;
    if rules != [] {
      var front, last := rules[..|rules| - 1], rules[|rules| - 1];
      AtSplit(c, p, EncAll(EncBase, front), EncBase(last));
      ReadRulesBack(kind, front, c, p);
      BaseRoundTrip(last, c, p + |EncAll(EncBase, front)|);
      assert MapAll(NormBase, rules) == MapAll(NormBase, front) + [NormBase(last)];
    }
  }

  // A page is rejected iff it holds more rules than a page of its type may.
  lemma RejectedIff(kind: i32, rules: seq<BaseRule>, finish: bool)
    requires |rules| < TWO_32
    ensures ReceivePage(Page(kind, rules, finish)).Rejected? <==> |rules| > if kind == 1 then 300 else 1000
  {
    hide EncBase, EncAll, ReadRules;
    var c := Page(kind, rules, finish);
    assert c[0] == I32(kind) && c[1] == U32(|rules|) && c[2] == Flag(finish);
  }

  lemma PageReceived(kind: i32, rules: seq<BaseRule>, finish: bool)
    requires Sendable(kind, rules) && |rules| <= PageSize(kind)
    ensures ReceivePage(Page(kind, rules, finish)) == Received(kind, MapAll(NormBase, rules), finish)
  {
    hide EncBase, EncAll, NormBase, ReadRules, MapAll;
    var c := Page(kind, rules, finish);
    assert c[0] == I32(kind) && c[1] == U32(|rules|) && c[2] == Flag(finish);
    assert At(c, 3, EncAll(EncBase, rules));
    ReadRulesBack(kind, rules, c, 3);
  }

  function ReceiveAll(pages: seq<seq<Cell>>): seq<BaseRule> {
    if pages == [] then []
    else
      var r := ReceivePage(pages[0]);
      (if r.Rejected? then [] else r.rules) + ReceiveAll(pages[1..])
  }

  // Across the process boundary: if every send succeeds the service receives the whole list, in
  // order and normalised, no page is rejected, and exactly the last page is marked as the last.
  lemma {:induction false} RulesDelivered(kind: i32, rules: seq<BaseRule>)
    requires Sendable(kind, rules)
    ensures var pages := Pages(kind, rules, PageSize(kind));
            && ReceiveAll(pages) == MapAll(NormBase, rules)
            && forall i :: 0 <= i < |pages| ==>
                 ReceivePage(pages[i]).Received? && (ReceivePage(pages[i]).finish <==> i == |pages| - 1)
    decreases |rules|
  {
    hide NormBase, ReceivePage, Page;
    if rules != [] {
      var m := Min(|rules|, PageSize(kind));
      var first, rest := rules[..m], rules[m..];
      PageReceived(kind, first, m == |rules|);
      RulesDelivered(kind, rest);
      var pages := Pages(kind, rules, PageSize(kind));
      assert pages[1..] == Pages(kind, rest, PageSize(kind));
      assert MapAll(NormBase, rules) == MapAll(NormBase, first) + MapAll(NormBase, rest);
      assert m == |rules| <==> |pages| == 1;
    }
  }

  ghost predicate OfKind(kind: i32, rules: seq<BaseRule>) { forall r :: r in rules ==> KindOf(r) == kind }
  ghost predicate AllValid(rules: seq<BaseRule>) { forall r :: r in rules ==> ValidBase(r) }

  // An invalid rule is skipped, and whatever is read after it, at most one rule comes of each.
  lemma {:induction false} ReadRulesShort(kind: i32, rules: seq<BaseRule>, c: seq<Cell>, p: nat)
    requires OfKind(kind, rules) && At(c, p, EncAll(EncBase, rules))
    ensures |ReadRules(kind, |rules|, c, p).0| <= |rules|
    ensures !AllValid(rules) ==> |ReadRules(kind, |rules|, c, p).0| < |rules|
    decreases |rules|
  {
    hide EncBase, DecBase, NormBase, At;
    if rules != [] {
      var front, last := rules[..|rules| - 1], rules[|rules| - 1];
      assert rules == front + [last];
      AtSplit(c, p, EncAll(EncBase, front), EncBase(last));
      ReadRulesShort(kind, front, c, p);
      if AllValid(front) {
        ReadRulesBack(kind, front, c, p);
        BaseRoundTrip(last, c, p + |EncAll(EncBase, front)|);
      }
    }
  }

  lemma PageShort(kind: i32, rules: seq<BaseRule>, finish: bool)
    requires OfKind(kind, rules) && |rules| <= PageSize(kind)
    ensures var r := ReceivePage(Page(kind, rules, finish));
            r.Received? && |r.rules| <= |rules| && (!AllValid(rules) ==> |r.rules| < |rules|)
  {
    hide EncBase, EncAll, ReadRules;
    var c := Page(kind, rules, finish);
    assert c[0] == I32(kind) && c[1] == U32(|rules|) && c[2] == Flag(finish);
    assert At(c, 3, EncAll(EncBase, rules));
    ReadRulesShort(kind, rules, c, 3);
  }

  lemma {:induction false} RulesLost(kind: i32, rules: seq<BaseRule>)
    requires OfKind(kind, rules)
    ensures var n := |ReceiveAll(Pages(kind, rules, PageSize(kind)))|;
            n <= |rules| && (!AllValid(rules) ==> n < |rules|)
    decreases |rules|
  {
    hide ReceivePage, Page;
    if rules != [] {
      var m := Min(|rules|, PageSize(kind));
      var first, rest := rules[..m], rules[m..];
      assert rules == first + rest;
      PageShort(kind, first, m == |rules|);
      RulesLost(kind, rest);
      assert Pages(kind, rules, PageSize(kind))[1..] == Pages(kind, rest, PageSize(kind));
    }
  }

  // A list of rules of one type is delivered complete iff every IP rule in it has a direction of 1 or
  // 2 and every IP or domain rule an action of 0 or 1.
  lemma DeliveredIffValid(kind: i32, rules: seq<BaseRule>)
    requires OfKind(kind, rules)
    ensures ReceiveAll(Pages(kind, rules, PageSize(kind))) == MapAll(NormBase, rules) <==>
            forall r :: r in rules ==>
              && (r.OfIp? ==> 1 <= r.ip.ruleDirection <= 2 && 0 <= r.ip.ruleAction <= 1)
              && (r.OfDomain? ==> 0 <= r.domain.ruleAction <= 1)
  {
    hide ReceiveAll, Pages;
    if AllValid(rules) { RulesDelivered(kind, rules); }
    RulesLost(kind, rules);
  }
}
