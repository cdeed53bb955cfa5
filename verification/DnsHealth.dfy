/**
  DNS health of the networks: a batch of query reports is tallied per network, the failure rate of
  each network is compared with 0.6 in double arithmetic, and a streak of failing batches triggers
  a detection of the network.
*/
module DnsHealth {
  import opened Powers

  type NetId = x: int | 0 <= x < TWO_32

  const DNS_FAIL_REASON_PARAM_INVALID: int := -1101
  const MAX_FAIL_VALUE: nat := 3

  // The result code is an unsigned 32-bit number on the wire and a signed one when it is checked.
  datatype Report = Report(netid: NetId, queryResult: NetId)
  datatype Tally = Tally(total: nat, fail: nat)

  function Signed(x: NetId): int { if x >= 0x8000_0000 then x - TWO_32 else x }

  // A report that says anything about the network: the query was sent.
  predicate Admitted(r: Report) { Signed(r.queryResult) != DNS_FAIL_REASON_PARAM_INVALID }
  predicate Failed(r: Report) { r.queryResult != 0 }

  // Network 0 stands for the default network.
  function Attributed(r: Report, defaultNet: NetId): NetId { if r.netid == 0 then defaultNet else r.netid }

  // ---------------------------------------------------------------- the counts that are meant

  function Count(reports: seq<Report>, defaultNet: NetId, net: NetId, failedOnly: bool): nat {
    if reports == [] then 0
    else
      var r := reports[|reports| - 1];
      Count(reports[..|reports| - 1], defaultNet, net, failedOnly)
      + (if Admitted(r) && Attributed(r, defaultNet) == net && (failedOnly ==> Failed(r)) then 1 else 0)
  }

  function AdmittedCount(reports: seq<Report>): nat {
    if reports == [] then 0
    else AdmittedCount(reports[..|reports| - 1]) + (if Admitted(reports[|reports| - 1]) then 1 else 0)
  }

  // A table of tallies that holds exactly the networks mentioned, each with its counts.
  ghost predicate Counts(t: map<NetId, Tally>, reports: seq<Report>, defaultNet: NetId) {
    && (forall n: NetId :: n in t <==> Count(reports, defaultNet, n, false) > 0)
    && (forall n :: n in t ==> t[n] == Tally(Count(reports, defaultNet, n, false), Count(reports, defaultNet, n, true)))
  }

  // ---------------------------------------------------------------- consequences

  lemma {:induction false} CountBounds(reports: seq<Report>, defaultNet: NetId, net: NetId)
    ensures Count(reports, defaultNet, net, true) <= Count(reports, defaultNet, net, false) <= |reports|
    ensures net == 0 && defaultNet != 0 ==> Count(reports, defaultNet, net, false) == 0
    decreases |reports|
  {
    if reports != [] { CountBounds(reports[..|reports| - 1], defaultNet, net); }
  }

  // A report counts for a network.  One with the result code -1101, which is 2^32 - 1101 on the wire,
  // counts for nobody; one of network 0 counts for the default network, any other for its own; and
  // every result code but 0 is a failure.
  predicate Hit(r: Report, defaultNet: NetId, net: NetId, failedOnly: bool) {
    && r.queryResult != 4294966195
    && (if r.netid == 0 then net == defaultNet else net == r.netid)
    && (failedOnly ==> r.queryResult != 0)
  }

  lemma HitIff(r: Report, defaultNet: NetId, net: NetId, failedOnly: bool)
    ensures Hit(r, defaultNet, net, failedOnly) <==>
            Admitted(r) && Attributed(r, defaultNet) == net && (failedOnly ==> Failed(r))
  {
  }

  lemma {:induction false} CountIsHits(reports: seq<Report>, defaultNet: NetId, net: NetId, failedOnly: bool)
    ensures Count(reports, defaultNet, net, failedOnly)
         == |set i | 0 <= i < |reports| && Hit(reports[i], defaultNet, net, failedOnly)|
    decreases |reports|
  {
    hide Hit, Admitted, Attributed, Failed;
    var all := set i | 0 <= i < |reports| && Hit(reports[i], defaultNet, net, failedOnly);
    if reports == [] {
      assert all == {};
    } else {
      var n := |reports| - 1;
      var front := reports[..n];
      var some := set i | 0 <= i < |front| && Hit(front[i], defaultNet, net, failedOnly);
      CountIsHits(front, defaultNet, net, failedOnly);
      HitIff(reports[n], defaultNet, net, failedOnly);
      assert all == if n in all then some + {n} else some;
    }
  }

  lemma FieldCounts(reports: seq<Report>, defaultNet: NetId, net: NetId)
    ensures var seen := set i | 0 <= i < |reports| && reports[i].queryResult != 4294966195
                                && (if reports[i].netid == 0 then net == defaultNet else net == reports[i].netid);
            var bad := set i | i in seen && reports[i].queryResult != 0;
            Count(reports, defaultNet, net, false) == |seen| && Count(reports, defaultNet, net, true) == |bad|
            && bad <= seen
  {
    var seen := set i | 0 <= i < |reports| && reports[i].queryResult != 4294966195
                        && (if reports[i].netid == 0 then net == defaultNet else net == reports[i].netid);
    var bad := set i | i in seen && reports[i].queryResult != 0;
    hide Count;
    CountIsHits(reports, defaultNet, net, false);
    CountIsHits(reports, defaultNet, net, true);
    assert seen == set i | 0 <= i < |reports| && Hit(reports[i], defaultNet, net, false);
    assert bad == set i | 0 <= i < |reports| && Hit(reports[i], defaultNet, net, true);
  }

  // A table of tallies in the fields of the reports.
  lemma TallyInFields(t: map<NetId, Tally>, reports: seq<Report>, defaultNet: NetId, net: NetId)
    requires Counts(t, reports, defaultNet)
    ensures var seen := set i | 0 <= i < |reports| && reports[i].queryResult != 4294966195
                                && (if reports[i].netid == 0 then net == defaultNet else net == reports[i].netid);
            var bad := set i | i in seen && reports[i].queryResult != 0;
            && (net in t <==> seen != {})
            && (net in t ==> t[net].total == |seen| && t[net].fail == |bad|)
  {
    hide Count;
    FieldCounts(reports, defaultNet, net);
  }

  ghost function Sum(f: NetId -> nat, nets: set<NetId>): nat {
    if nets == {} then 0
    else
      var n :| n in nets;
      f(n) + Sum(f, nets - {n})
  }

  lemma {:induction false} SumRemove(f: NetId -> nat, nets: set<NetId>, x: NetId)
    requires x in nets
    ensures Sum(f, nets) == f(x) + Sum(f, nets - {x})
    decreases |nets|
  {
    var n :| n in nets && Sum(f, nets) == f(n) + Sum(f, nets - {n});
    if n != x {
      SumRemove(f, nets - {n}, x);
      SumRemove(f, nets - {x}, n);
      assert nets - {n} - {x} == nets - {x} - {n};
    }
  }

  lemma {:induction false} SumSame(f: NetId -> nat, g: NetId -> nat, nets: set<NetId>)
    requires forall n :: n in nets ==> f(n) == g(n)
    ensures Sum(f, nets) == Sum(g, nets)
    decreases |nets|
  {
    if nets != {} {
      var n :| n in nets;
      SumRemove(f, nets, n);
      SumRemove(g, nets, n);
      SumSame(f, g, nets - {n});
    }
  }

  function Totals(reports: seq<Report>, defaultNet: NetId): NetId -> nat {
    n => Count(reports, defaultNet, n, false)
  }

  // The totals of the networks mentioned, and of any others, add up to the admitted reports.
  lemma {:induction false} TotalsAddUp(reports: seq<Report>, defaultNet: NetId, nets: set<NetId>)
    requires forall n: NetId :: Count(reports, defaultNet, n, false) > 0 ==> n in nets
    ensures Sum(Totals(reports, defaultNet), nets) == AdmittedCount(reports)
    decreases |reports|
  {
    var f := Totals(reports, defaultNet);
    if reports == [] {
      SumZero(f, nets);
    } else {
      var front, r := reports[..|reports| - 1], reports[|reports| - 1];
      var g := Totals(front, defaultNet);
      TotalsAddUp(front, defaultNet, nets);
      if Admitted(r) {
        var x := Attributed(r, defaultNet);
        assert Count(reports, defaultNet, x, false) > 0;
        SumRemove(f, nets, x);
        SumRemove(g, nets, x);
        SumSame(f, g, nets - {x});
      } else {
        SumSame(f, g, nets);
      }
    }
  }

  lemma {:induction false} SumZero(f: NetId -> nat, nets: set<NetId>)
    requires forall n :: n in nets ==> f(n) == 0
    ensures Sum(f, nets) == 0
    decreases |nets|
  {
    if nets != {} {
      var n :| n in nets;
      SumRemove(f, nets, n);
      SumZero(f, nets - {n});
    }
  }

  // What a correct table of tallies promises: no empty entries, no more failures than reports, no
  // entry for network 0 unless it is the default, and totals that add up to the admitted reports.
  lemma TallyFacts(t: map<NetId, Tally>, reports: seq<Report>, defaultNet: NetId)
    requires Counts(t, reports, defaultNet)
    ensures forall n :: n in t ==> 1 <= t[n].total <= |reports| && t[n].fail <= t[n].total
    ensures 0 in t ==> defaultNet == 0
    ensures Sum(n => if n in t then t[n].total else 0, t.Keys) == AdmittedCount(reports)
  {
    forall n | n in t ensures 1 <= t[n].total <= |reports| && t[n].fail <= t[n].total {
      CountBounds(reports, defaultNet, n);
    }
    CountBounds(reports, defaultNet, 0);
    TotalsAddUp(reports, defaultNet, t.Keys);
    SumSame(n => if n in t then t[n].total else 0, Totals(reports, defaultNet), t.Keys);
  }

  // One more report for a network.
  function Bump(t: map<NetId, Tally>, net: NetId, failed: nat): map<NetId, Tally> {
    if net in t then t[net := Tally(t[net].total + 1, t[net].fail + failed)] else t[net := Tally(1, failed)]
  }

  lemma CountsEmpty(defaultNet: NetId)
    ensures Counts(map[], [], defaultNet)
  {
  }

  lemma CountAppend(front: seq<Report>, r: Report, defaultNet: NetId, net: NetId, failedOnly: bool)
    ensures Count(front + [r], defaultNet, net, failedOnly) ==
            Count(front, defaultNet, net, failedOnly)
            + (if Admitted(r) && Attributed(r, defaultNet) == net && (failedOnly ==> Failed(r)) then 1 else 0)
  {
    assert (front + [r])[..|front|] == front;
  }

  lemma CountsAppend(t: map<NetId, Tally>, front: seq<Report>, r: Report, defaultNet: NetId)
    requires Counts(t, front, defaultNet)
    ensures var t' := if Admitted(r) then Bump(t, Attributed(r, defaultNet), if Failed(r) then 1 else 0) else t;
            Counts(t', front + [r], defaultNet)
    ensures 0 in t ==> defaultNet == 0
  {
    hide Count;
    CountBounds(front, defaultNet, 0);
    var t' := if Admitted(r) then Bump(t, Attributed(r, defaultNet), if Failed(r) then 1 else 0) else t;
    forall n: NetId
      ensures n in t' <==> Count(front + [r], defaultNet, n, false) > 0
      ensures n in t' ==>
                t'[n] == Tally(Count(front + [r], defaultNet, n, false), Count(front + [r], defaultNet, n, true))
    {
      CountAppend(front, r, defaultNet, n, false);
      CountAppend(front, r, defaultNet, n, true);
      CountBounds(front, defaultNet, n);
    }
  }

  // ---------------------------------------------------------------- the failure rate in doubles

  function Power(e: int): real {
    if e >= 0 then Pow2(e) as real else 1.0 / Pow2(-e) as real
  }

  function Scaled(m: int, e: int): real { m as real * Power(e) }

  // The finite numbers of the binary64 format.
  ghost predicate IsDouble(d: real) {
    exists m, e :: -0x20_0000_0000_0000 <= m <= 0x20_0000_0000_0000 && -1074 <= e <= 971 && d == Scaled(m, e)
  }

  function Distance(x: real, y: real): real { if x <= y then y - x else x - y }

  // Rounding to nearest, with any way of breaking ties.
  ghost predicate RoundsToNearest(round: real -> real) {
    forall x: real :: 0.0 <= x <= 1.0 ==>
      IsDouble(round(x)) && forall d :: IsDouble(d) ==> Distance(x, round(x)) <= Distance(x, d)
  }

  // The test as it is computed: the quotient is rounded, and so is the constant 0.6.
  predicate OverThreshold(round: real -> real, fail: nat, total: nat)
    requires total > 0
  {
    round(fail as real / total as real) > round(0.6)
  }

  const HALF_ULP: real := 1.0 / 18014398509481984.0

  lemma PowerMinus53()
    ensures Power(-53) == 1.0 / 9007199254740992.0
  {
    assert Pow2(10) == 1024 && Pow2(3) == 8;
    Pow2Add(10, 10);
    Pow2Add(20, 20);
    Pow2Add(40, 10);
    Pow2Add(50, 3);
    assert Pow2(53) == 9007199254740992;
    hide Pow2;
  }

  // Every number between 0 and 1 has a double within half a unit of 2^-53.
  lemma DoubleNearby(x: real) returns (d: real)
    requires 0.0 <= x <= 1.0
    ensures IsDouble(d) && Distance(x, d) <= HALF_ULP
  {
    PowerMinus53();
    var y := x * 9007199254740992.0;
    var m := (y + 0.5).Floor;
    d := Scaled(m, -53);
    assert d * 9007199254740992.0 == m as real;
    assert m as real - 0.5 <= y <= m as real + 0.5;
  }

  lemma RoundingError(round: real -> real, x: real)
    requires RoundsToNearest(round) && 0.0 <= x <= 1.0
    ensures Distance(x, round(x)) <= HALF_ULP
  {
    var d := DoubleNearby(x);
  }

  // For all 32-bit counts the rounded test decides exactly whether fail/total exceeds 3/5.
  lemma OverThresholdExact(round: real -> real, fail: nat, total: nat)
    requires RoundsToNearest(round) && 0 < total < TWO_32 && fail <= total
    ensures OverThreshold(round, fail, total) <==> 5 * fail > 3 * total
  {
    var x := fail as real / total as real;
    Quotient(fail, total);
    RoundingError(round, x);
    RoundingError(round, 0.6);
  }

  lemma TimesMonotone(a: real, b: real, t: real)
    requires a <= b && t >= 0.0
    ensures a * t <= b * t
  {
    assert (b - a) * t >= 0.0;
  }

  lemma FarAbove(f: real, t: real, x: real, gap: real, g: real)
    requires t > 0.0 && x * t == f && gap * t == g < 0.2 && f >= 0.6 * t + 0.2
    ensures x > 0.6 + gap
  {
    if x <= 0.6 + gap {
      TimesMonotone(x, 0.6 + gap, t);
    }
  }

  lemma FarBelow(f: real, t: real, x: real, gap: real, g: real)
    requires t > 0.0 && x * t == f && gap * t == g < 0.2 && f <= 0.6 * t - 0.2
    ensures x < 0.6 - gap
  {
    if x >= 0.6 - gap {
      TimesMonotone(0.6 - gap, x, t);
    }
  }

  lemma TimesStrict(a: real, b: real, t: real)
    requires a < b && t > 0.0
    ensures a * t < b * t
  {
    assert (b - a) * t > 0.0;
  }

  lemma Between(f: real, t: real, x: real)
    requires t > 0.0 && x * t == f && 0.0 <= f <= t
    ensures 0.0 <= x <= 1.0
  {
    if x < 0.0 {
      TimesStrict(x, 0.0, t);
    } else if x > 1.0 {
      TimesStrict(1.0, x, t);
    }
  }

  lemma ThreeFifths(f: real, t: real, x: real)
    requires t > 0.0 && x * t == f && f == 0.6 * t
    ensures x == 0.6
  {
    if x < 0.6 {
      TimesStrict(x, 0.6, t);
    } else if x > 0.6 {
      TimesStrict(0.6, x, t);
    }
  }

  lemma QuotientTimes(f: real, t: real)
    requires t > 0.0
    ensures (f / t) * t == f
  {
  }

  // The quotient is 3/5, or at least 1/(5*total) away from it: much more than two rounding errors.
  lemma Quotient(fail: nat, total: nat)
    requires 0 < total < TWO_32 && fail <= total
    ensures var x := fail as real / total as real;
            && 0.0 <= x <= 1.0
            && (5 * fail == 3 * total ==> x == 0.6)
            && (5 * fail > 3 * total ==> x > 0.6 + 2.0 * HALF_ULP)
            && (5 * fail < 3 * total ==> x < 0.6 - 2.0 * HALF_ULP)
  {
    var f, t := fail as real, total as real;
    var x := f / t;
    QuotientTimes(f, t);
    Between(f, t, x);
    var gap := 2.0 * HALF_ULP;
    if 5 * fail > 3 * total {
      FarAbove(f, t, x, gap, gap * t);
    } else if 5 * fail < 3 * total {
      FarBelow(f, t, x, gap, gap * t);
    } else {
      ThreeFifths(f, t, x);
    }
  }

  // ---------------------------------------------------------------- one network over many batches

  datatype Batch = Batch(reports: seq<Report>, defaultNet: NetId)
  datatype Outcome = Unmentioned | Healthy | Failing

  function OutcomeOf(round: real -> real, b: Batch, net: NetId): Outcome {
    var total := Count(b.reports, b.defaultNet, net, false);
    if total == 0 then Unmentioned
    else if OverThreshold(round, Count(b.reports, b.defaultNet, net, true), total) then Failing
    else Healthy
  }

  // With hardware rounding the outcome is the one exact arithmetic gives.
  lemma OutcomeExact(round: real -> real, b: Batch, net: NetId)
    requires RoundsToNearest(round) && |b.reports| < TWO_32
    ensures var total, fail := Count(b.reports, b.defaultNet, net, false), Count(b.reports, b.defaultNet, net, true);
            OutcomeOf(round, b, net) ==
              if total == 0 then Unmentioned else if 5 * fail > 3 * total then Failing else Healthy
  {
    CountBounds(b.reports, b.defaultNet, net);
    hide Count, OverThreshold, RoundsToNearest;
    var total, fail := Count(b.reports, b.defaultNet, net, false), Count(b.reports, b.defaultNet, net, true);
    if total > 0 { OverThresholdExact(round, fail, total); }
  }

  // And in the fields of the reports: a batch fails a network iff more than three fifths of the
  // reports that count for it are failures, and leaves it alone iff there are none.
  lemma BatchFailsIff(round: real -> real, b: Batch, net: NetId)
    requires RoundsToNearest(round) && |b.reports| < TWO_32
    ensures var seen := set i | 0 <= i < |b.reports| && b.reports[i].queryResult != 4294966195
                                && (if b.reports[i].netid == 0 then net == b.defaultNet
                                    else net == b.reports[i].netid);
            var bad := set i | i in seen && b.reports[i].queryResult != 0;
            && (OutcomeOf(round, b, net).Unmentioned? <==> seen == {})
            && (OutcomeOf(round, b, net).Failing? <==> 5 * |bad| > 3 * |seen|)
  {
    hide OutcomeOf, RoundsToNearest;
    OutcomeExact(round, b, net);
    FieldCounts(b.reports, b.defaultNet, net);
  }

  // The same, from the tallies of the batch.
  function OutcomeIn(round: real -> real, t: map<NetId, Tally>, net: NetId): Outcome {
    if net !in t || t[net].total == 0 then Unmentioned
    else if OverThreshold(round, t[net].fail, t[net].total) then Failing
    else Healthy
  }

  lemma OutcomeFromTally(round: real -> real, t: map<NetId, Tally>, b: Batch, net: NetId)
    requires Counts(t, b.reports, b.defaultNet)
    ensures OutcomeIn(round, t, net) == OutcomeOf(round, b, net)
    ensures net in t ==> t[net].total > 0
  {
  }

  // The stored fail count of a network (absent counts as 0) and the detections requested for it:
  // true for a healthy network, false for an unhealthy one.
  datatype NetState = NetState(fail: nat, detections: seq<bool>)

  function Step(s: NetState, o: Outcome): NetState {
    match o
    case Unmentioned => s
    case Healthy => NetState(0, s.detections + [true])
    case Failing =>
      if s.fail + 1 >= MAX_FAIL_VALUE then NetState(0, s.detections + [false])
      else s.(fail := s.fail + 1)
  }

  function After(os: seq<Outcome>): NetState {
    if os == [] then NetState(0, []) else Step(After(os[..|os| - 1]), os[|os| - 1])
  }

  // Failing batches since the last healthy one.
  function Streak(os: seq<Outcome>): nat {
    if os == [] then 0
    else
      var front := os[..|os| - 1];
      match os[|os| - 1]
      case Unmentioned => Streak(front)
      case Healthy => 0
      case Failing => Streak(front) + 1
  }

  // Unhealthy detections since the last healthy one.
  function UnhealthySince(ds: seq<bool>): nat {
    if ds == [] || ds[|ds| - 1] then 0 else UnhealthySince(ds[..|ds| - 1]) + 1
  }

  lemma UnhealthyAppend(ds: seq<bool>, d: bool)
    ensures UnhealthySince(ds + [d]) == if d then 0 else UnhealthySince(ds) + 1
  {
    assert (ds + [d])[..|ds|] == ds;
  }

  lemma UnhealthyNone()
    ensures UnhealthySince([]) == 0
  {
  }

  lemma OneMore(n: nat)
    ensures (n + 1) % 3 == if n % 3 == 2 then 0 else n % 3 + 1
    ensures (n + 1) / 3 == if n % 3 == 2 then n / 3 + 1 else n / 3
  {
  }

  // The fail count is the streak modulo 3, and one unhealthy detection has been requested for each
  // three failing batches of the streak.
  lemma {:induction false} StreakCounts(os: seq<Outcome>)
    ensures After(os).fail == Streak(os) % 3
    ensures UnhealthySince(After(os).detections) == Streak(os) / 3
    decreases |os|
  {
    hide UnhealthySince;
    UnhealthyNone();
    if os != [] {
      var front := os[..|os| - 1];
      StreakCounts(front);
      OneMore(Streak(front));
      UnhealthyAppend(After(front).detections, true);
      UnhealthyAppend(After(front).detections, false);
    }
  }

  function Outcomes(round: real -> real, history: seq<Batch>, net: NetId): seq<Outcome> {
    if history == [] then []
    else Outcomes(round, history[..|history| - 1], net) + [OutcomeOf(round, history[|history| - 1], net)]
  }

  lemma OutcomesAppend(round: real -> real, history: seq<Batch>, b: Batch, net: NetId)
    ensures Outcomes(round, history + [b], net) == Outcomes(round, history, net) + [OutcomeOf(round, b, net)]
    ensures After(Outcomes(round, history + [b], net))
         == Step(After(Outcomes(round, history, net)), OutcomeOf(round, b, net))
  {
    assert (history + [b])[..|history|] == history;
    var os := Outcomes(round, history, net);
    assert (os + [OutcomeOf(round, b, net)])[..|os|] == os;
  }

  // ---------------------------------------------------------------- the callback object

  datatype Detection = Detection(net: NetId, healthy: bool)

  function DetectionsOf(log: seq<Detection>, net: NetId): seq<bool> {
    if log == [] then []
    else DetectionsOf(log[..|log| - 1], net) + (if log[|log| - 1].net == net then [log[|log| - 1].healthy] else [])
  }

  lemma DetectionsAppend(log: seq<Detection>, d: Detection, net: NetId)
    ensures DetectionsOf(log + [d], net) == DetectionsOf(log, net) + (if d.net == net then [d.healthy] else [])
  {
    assert (log + [d])[..|log|] == log;
  }

  function Stored(failCount: map<NetId, nat>, net: NetId): nat {
    if net in failCount then failCount[net] else 0
  }

  class NetDnsResultCallback {
    const round: real -> real
    var netDnsResult: map<NetId, Tally>
    var failCount: map<NetId, nat>
    ghost var log: seq<Detection>
    ghost var history: seq<Batch>

    ghost function StateOf(net: NetId): NetState
      reads this
    {
      NetState(Stored(failCount, net), DetectionsOf(log, net))
    }

    // Every network is where its history of batches takes it.
    ghost predicate Valid()
      reads this
    {
      forall net: NetId :: StateOf(net) == After(Outcomes(round, history, net))
    }

    constructor (round: real -> real)
      ensures Valid() && history == [] && this.round == round
    {
      this.round := round;
      netDnsResult, failCount := map[], map[];
      log, history := [], [];
    }

    // Tallies the admitted reports.
    method IterateDnsReportResults(reports: seq<Report>, defaultNet: NetId)
      requires netDnsResult == map[]
      modifies this`netDnsResult
      ensures Counts(netDnsResult, reports, defaultNet)
    {
      hide Counts;
      CountsEmpty(defaultNet);
      assert reports[..0] == [];
      for i := 0 to |reports|
        invariant Counts(netDnsResult, reports[..i], defaultNet)
      {
        var it := reports[i];
        assert reports[..i + 1] == reports[..i] + [it];
        CountsAppend(netDnsResult, reports[..i], it, defaultNet);
        if Signed(it.queryResult) == DNS_FAIL_REASON_PARAM_INVALID {
          continue;
        }
        var failed := if it.queryResult == 0 then 0 else 1;
        if it.netid !in netDnsResult && it.netid == 0 {
          if defaultNet !in netDnsResult {
            netDnsResult := netDnsResult[defaultNet := Tally(1, failed)];
          } else {
            var t := netDnsResult[defaultNet];
            netDnsResult := netDnsResult[defaultNet := Tally(t.total + 1, t.fail + failed)];
          }
        } else if it.netid !in netDnsResult {
          netDnsResult := netDnsResult[it.netid := Tally(1, failed)];
        } else {
          var t := netDnsResult[it.netid];
          netDnsResult := netDnsResult[it.netid := Tally(t.total + 1, t.fail + failed)];
        }
      }
      assert reports[..|reports|] == reports;
    }

    // One network of the batch: its stored count and the detections requested move by one step.
    method ReportNetwork(net: NetId, t: Tally)
      requires t.total > 0
      modifies this`failCount, this`log
      ensures var o := if OverThreshold(round, t.fail, t.total) then Failing else Healthy;
              StateOf(net) == Step(old(StateOf(net)), o)
      ensures forall n: NetId :: n != net ==> StateOf(n) == old(StateOf(n))
    {
      forall n: NetId, d: Detection
        ensures DetectionsOf(log + [d], n) == DetectionsOf(log, n) + (if d.net == n then [d.healthy] else [])
      {
        DetectionsAppend(log, d, n);
      }
      hide DetectionsOf;
      if OverThreshold(round, t.fail, t.total) {
        RequestNetDetection(net);
      } else {
        failCount := failCount[net := 0];
        log := log + [Detection(net, true)];
      }
    }

    method RequestNetDetection(net: NetId)
      modifies this`failCount, this`log
      ensures var v := Stored(old(failCount), net) + 1;
              && failCount == old(failCount)[net := if v >= MAX_FAIL_VALUE then 0 else v]
              && log == if v >= MAX_FAIL_VALUE then old(log) + [Detection(net, false)] else old(log)
    {
      if net !in failCount {
        failCount := failCount[net := 1];
      } else {
        var failValue := failCount[net] + 1;
        if failValue >= MAX_FAIL_VALUE {
          log := log + [Detection(net, false)];
          failCount := failCount[net := 0];
        } else {
          failCount := failCount[net := failValue];
        }
      }
    }

    // The networks of the batch are taken in whatever order the table yields them.
    method OnDnsResultReport(reports: seq<Report>, defaultNet: NetId)
      requires Valid()
      modifies this
      ensures Valid() && history == old(history) + [Batch(reports, defaultNet)]
      ensures Counts(netDnsResult, reports, defaultNet)
    {
      hide Counts, OverThreshold, DetectionsOf, Stored, After, Outcomes, OutcomeOf;
      netDnsResult := map[];
      IterateDnsReportResults(reports, defaultNet);
      var tallies := netDnsResult;
      forall n | n in tallies ensures tallies[n].total > 0 {
        OutcomeFromTally(round, tallies, Batch(reports, defaultNet), n);
      }
      var todo := tallies.Keys;
      while todo != {}
        invariant todo <= tallies.Keys && history == old(history) && netDnsResult == tallies
        invariant forall n: NetId :: n in todo || n !in tallies ==> StateOf(n) == old(StateOf(n))
        invariant forall n: NetId :: n in tallies && n !in todo ==>
                    StateOf(n) == Step(old(StateOf(n)), OutcomeIn(round, tallies, n))
        decreases |todo|
      {
        var net :| net in todo;
        ReportNetwork(net, tallies[net]);
        todo := todo - {net};
      }
      history := history + [Batch(reports, defaultNet)];
      forall n: NetId ensures StateOf(n) == After(Outcomes(round, history, n)) {
        OutcomeFromTally(round, tallies, Batch(reports, defaultNet), n);
        OutcomesAppend(round, old(history), Batch(reports, defaultNet), n);
      }
    }

    // The whole story of one network: what is stored for it is the number of failing batches since
    // its last healthy one modulo 3, and a detection was requested for each three of them.
    lemma StreakStored(net: NetId)
      requires Valid()
      ensures var streak := Streak(Outcomes(round, history, net));
              Stored(failCount, net) == streak % 3 && UnhealthySince(DetectionsOf(log, net)) == streak / 3
    {
      StreakCounts(Outcomes(round, history, net));
      assert StateOf(net) == After(Outcomes(round, history, net));
    }
  }
}
