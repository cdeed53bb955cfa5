/**
  The 464XLAT control service of one network.

  A three-state machine is driven by updates taken from a serial queue.  Beside it run
  prefix-discovery tasks that query DNS64 (section 3 of RFC 7050), sleep with a doubling
  back-off and resubmit themselves.  A run is a sequence of events: a client submits an
  update, the queue executes its oldest update, a ready discovery task runs up to its sleep
  (or its end), a sleeping task wakes up, or a client renames the interface.
*/
module Nat464 {
  import opened Powers

  datatype UpdateFlag = Continue | Stop
  datatype ServiceState = Idle | Discovering | Running
  datatype ClatCall = StartClat(iface: string, netId: int, prefix: string) | StopClat(iface: string)

  // The outcome of one DNS64 query; a successful query may still carry no IPv6 address.
  datatype Answer = QueryFailed | Resolved(prefix: string)

  const INITIAL_DISCOVERY_CYCLE_MS: nat := 100
  const MAX_DISCOVERY_CYCLE_MS: nat := 100000
  const DISCOVERY_CYCLE_MULTIPLIER: nat := 2
  const CLAT_PREFIX := "tunv4-"

  // A prefix answered by DNS64, and how many CLAT calls had been made by then.
  datatype Found = Found(prefix: string, callsBefore: nat)

  // The fields of the service, the state of the task system around it (queued updates,
  // discovery tasks ready to run, discovery tasks asleep) and the history: the CLAT calls
  // made, the number of DNS64 queries sent, their successful answers and the sleeps taken.
  datatype State = State(
    netId: int,
    service: ServiceState,
    v6Iface: string,
    v4TunIface: string,
    tryStop: bool,
    cycleMs: nat,
    iter: nat,
    prefix: string,
    queue: seq<UpdateFlag>,
    ready: nat,
    asleep: nat,
    calls: seq<ClatCall>,
    queries: nat,
    found: seq<Found>,
    slept: seq<nat>)

  function Init(netId: int, v6Iface: string): State {
    State(netId, Idle, v6Iface, CLAT_PREFIX + v6Iface, false, INITIAL_DISCOVERY_CYCLE_MS, 1, "",
          [], 0, 0, [], 0, [], [])
  }

  datatype Event =
    | Submit(flag: UpdateFlag)
    | RunQueue
    | Discover(answer: Answer)
    | Wake
    | RenameIface(name: string)

  function UpdateServiceState(s: State, flag: UpdateFlag): State {
    match (s.service, flag)
    case (Idle, Continue) => s.(ready := s.ready + 1, service := Discovering)
    case (Discovering, Stop) => s.(tryStop := true, service := Idle)
    case (Discovering, Continue) =>
      if s.prefix != "" then
        s.(calls := s.calls + [StartClat(s.v6Iface, s.netId, s.prefix)], service := Running)
      else s
    case (Running, Stop) =>
      s.(calls := s.calls + [StopClat(s.v6Iface)], prefix := "", service := Idle)
    case _ => s
  }

  function ResetBackoff(s: State): State {
    s.(cycleMs := INITIAL_DISCOVERY_CYCLE_MS, iter := 1)
  }

  // One DNS64 query: its task ends with a prefix, gives up, or goes to sleep.
  function Query(s: State, answer: Answer): State {
    var s := s.(queries := s.queries + 1);
    match answer
    case Resolved(p) =>
      ResetBackoff(s).(prefix := p, queue := s.queue + [Continue],
                       found := s.found + [Found(p, |s.calls|)])
    case QueryFailed =>
      if s.cycleMs > MAX_DISCOVERY_CYCLE_MS then s
      else s.(asleep := s.asleep + 1, slept := s.slept + [s.cycleMs])
  }

  // One activation of a discovery task, up to the point where it ends or goes to sleep.
  function DiscoverPrefix(s: State, answer: Answer): State
    requires s.ready > 0
  {
    var s := s.(ready := s.ready - 1);
    if s.tryStop then ResetBackoff(s).(tryStop := false) else Query(s, answer)
  }

  // The rest of the activation after its sleep: an 8-bit counter, a 32-bit cycle.
  function WakeUp(s: State): State
    requires s.asleep > 0
  {
    s.(asleep := s.asleep - 1,
       iter := (s.iter + 1) % 256,
       cycleMs := (s.cycleMs * DISCOVERY_CYCLE_MULTIPLIER) % TWO_32,
       ready := s.ready + 1)
  }

  function MaybeUpdateV6Iface(s: State, name: string): State {
    if s.service == Idle then s.(v6Iface := name, v4TunIface := CLAT_PREFIX + name) else s
  }

  // An event that is not enabled leaves the state alone.
  function Next(s: State, e: Event): State {
    match e
    case Submit(flag) => s.(queue := s.queue + [flag])
    case RunQueue => if s.queue == [] then s else UpdateServiceState(s.(queue := s.queue[1..]), s.queue[0])
    case Discover(answer) => if s.ready == 0 then s else DiscoverPrefix(s, answer)
    case Wake => if s.asleep == 0 then s else WakeUp(s)
    case RenameIface(name) => MaybeUpdateV6Iface(s, name)
  }

  function Run(s: State, es: seq<Event>): State
    decreases |es|
  {
    if es == [] then s else Run(Next(s, es[0]), es[1..])
  }

  lemma {:induction false} RunAppend(s: State, a: seq<Event>, b: seq<Event>)
    ensures Run(s, a + b) == Run(Run(s, a), b)
    decreases |a|
  {
    if a == [] {
      assert a + b == b;
    } else {
      assert (a + b)[1..] == a[1..] + b;
      RunAppend(Next(s, a[0]), a[1..], b);
    }
  }

  lemma RunOne(s: State, e: Event)
    ensures Run(s, [e]) == Next(s, e)
  {
    assert [e][1..] == [];
  }

  // ---------------------------------------------------------------- CLAT calls

  // Even calls start with a prefix, odd calls stop the interface of the call before.
  ghost predicate InTurn(calls: seq<ClatCall>, i: nat)
    requires i < |calls|
  {
    if i % 2 == 0 then calls[i].StartClat? && calls[i].prefix != ""
    else calls[i].StopClat? && calls[i].iface == calls[i - 1].iface
  }

  ghost predicate Alternates(calls: seq<ClatCall>) {
    forall i: nat :: i < |calls| ==> InTurn(calls, i)
  }

  lemma AlternatesAppend(calls: seq<ClatCall>, call: ClatCall)
    requires Alternates(calls) && InTurn(calls + [call], |calls|)
    ensures Alternates(calls + [call])
  {
    forall i: nat | i < |calls| + 1
      ensures InTurn(calls + [call], i)
    {
      if i < |calls| {
        assert InTurn(calls, i);
      }
    }
  }

  ghost predicate ClatInv(s: State) {
    && Alternates(s.calls)
    && (s.service.Running? <==> |s.calls| % 2 == 1)
    && (s.service.Running? ==> s.calls[|s.calls| - 1].iface == s.v6Iface)
    && s.v4TunIface == CLAT_PREFIX + s.v6Iface
  }

  lemma ClatStep(s: State, e: Event)
    requires ClatInv(s)
    ensures ClatInv(Next(s, e))
    ensures s.calls <= Next(s, e).calls
  {
    var s' := Next(s, e);
    if s'.calls != s.calls {
      var call := s'.calls[|s.calls|];
      assert s'.calls == s.calls + [call];
      AlternatesAppend(s.calls, call);
    }
  }

  lemma {:induction false} ClatRun(s: State, es: seq<Event>)
    requires ClatInv(s)
    ensures ClatInv(Run(s, es))
    ensures s.calls <= Run(s, es).calls
    decreases |es|
  {
    if es != [] {
      ClatStep(s, es[0]);
      ClatRun(Next(s, es[0]), es[1..]);
    }
  }

  // In every run StartClat and StopClat alternate, starting with StartClat; a stop names the
  // interface of the start before it; a start always has a prefix; and the service is running
  // exactly when the last call was a start.
  lemma ClatCallsAlternate(netId: int, v6Iface: string, es: seq<Event>)
    ensures var s := Run(Init(netId, v6Iface), es);
            && Alternates(s.calls)
            && (s.service.Running? <==> s.calls != [] && s.calls[|s.calls| - 1].StartClat?)
            && (s.service.Running? ==> s.calls[|s.calls| - 1].iface == s.v6Iface)
            && s.v4TunIface == CLAT_PREFIX + s.v6Iface
  {
    ClatRun(Init(netId, v6Iface), es);
    var s := Run(Init(netId, v6Iface), es);
    if s.calls != [] {
      var last := |s.calls| - 1;
      assert InTurn(s.calls, last);
    }
  }

  // ---------------------------------------------------------------- which interface is named

  // No rename reaches an idle service.
  ghost predicate RenamesBusy(s: State, es: seq<Event>)
    decreases |es|
  {
    es != [] ==> && (es[0].RenameIface? ==> !s.service.Idle?)
                 && RenamesBusy(Next(s, es[0]), es[1..])
  }

  lemma {:induction false} IfaceKept(s: State, es: seq<Event>, i: nat)
    requires RenamesBusy(s, es)
    ensures var t := Run(s, es);
            && t.v6Iface == s.v6Iface && t.v4TunIface == s.v4TunIface && |s.calls| <= |t.calls|
            && (|s.calls| <= i < |t.calls| ==> t.calls[i].iface == s.v6Iface)
            && (i < |s.calls| ==> t.calls[i] == s.calls[i])
    decreases |es|
  {
    if es != [] {
      var s' := Next(s, es[0]);
      assert s'.calls == s.calls || (s'.calls == s.calls + [s'.calls[|s.calls|]]
                                     && s'.calls[|s.calls|].iface == s.v6Iface);
      IfaceKept(s', es[1..], i);
    }
  }

  // A rename of an idle service takes effect: until the next one, whatever is renamed in between
  // while the service is busy, every CLAT call names the new interface.
  lemma RenameTakesEffect(s: State, name: string, es: seq<Event>, i: nat)
    requires s.service.Idle? && RenamesBusy(Next(s, RenameIface(name)), es)
    ensures var t := Run(s, [RenameIface(name)] + es);
            && t.v6Iface == name && t.v4TunIface == "tunv4-" + name
            && (|s.calls| <= i < |t.calls| ==> t.calls[i].iface == name)
  {
    assert ([RenameIface(name)] + es)[1..] == es;
    IfaceKept(Next(s, RenameIface(name)), es, i);
  }

  // ---------------------------------------------------------------- where a prefix comes from

  // The answer that call i works with: it came after the call before, and no other came since.
  ghost predicate LatestFor(found: seq<Found>, j: nat, prefix: string, i: nat) {
    && j < |found| && found[j] == Found(prefix, i)
    && forall m :: j < m < |found| ==> found[m].callsBefore > i
  }

  ghost predicate Sourced(calls: seq<ClatCall>, found: seq<Found>, i: nat) {
    i < |calls| && calls[i].StartClat? ==> exists j :: LatestFor(found, j, calls[i].prefix, i)
  }

  ghost predicate SourceInv(s: State) {
    && (forall i :: Sourced(s.calls, s.found, i))
    && (!s.service.Running? && s.prefix != "" ==>
          s.found != [] && s.found[|s.found| - 1] == Found(s.prefix, |s.calls|))
  }

  // An answer that comes after the calls made so far changes nothing for them.
  lemma SourcedKept(calls: seq<ClatCall>, found: seq<Found>, answer: Found)
    requires (forall i :: Sourced(calls, found, i)) && answer.callsBefore == |calls|
    ensures forall i :: Sourced(calls, found + [answer], i)
  {
    forall i: nat ensures Sourced(calls, found + [answer], i) {
      assert Sourced(calls, found, i);
      if i < |calls| && calls[i].StartClat? {
        var j :| LatestFor(found, j, calls[i].prefix, i);
        assert LatestFor(found + [answer], j, calls[i].prefix, i);
      }
    }
  }

  lemma SourcedNext(calls: seq<ClatCall>, found: seq<Found>, call: ClatCall)
    requires forall i :: Sourced(calls, found, i)
    requires call.StartClat? ==> found != [] && found[|found| - 1] == Found(call.prefix, |calls|)
    ensures forall i :: Sourced(calls + [call], found, i)
  {
    forall i: nat ensures Sourced(calls + [call], found, i) {
      assert Sourced(calls, found, i);
      if i == |calls| && call.StartClat? {
        assert LatestFor(found, |found| - 1, call.prefix, i);
      }
    }
  }

  lemma SourceStep(s: State, e: Event)
    requires SourceInv(s)
    ensures SourceInv(Next(s, e))
  {
    hide Sourced;
    var s' := Next(s, e);
    if s'.calls != s.calls {
      var call := s'.calls[|s.calls|];
      assert s'.calls == s.calls + [call] && s'.found == s.found;
      SourcedNext(s.calls, s.found, call);
    } else if s'.found != s.found {
      var answer := s'.found[|s.found|];
      assert s'.found == s.found + [answer];
      SourcedKept(s.calls, s.found, answer);
    }
  }

  lemma {:induction false} SourceRun(s: State, es: seq<Event>)
    requires SourceInv(s)
    ensures SourceInv(Run(s, es))
    decreases |es|
  {
    if es != [] {
      SourceStep(s, es[0]);
      SourceRun(Next(s, es[0]), es[1..]);
    }
  }

  // In every run each StartClat carries the latest prefix DNS64 answered, and that answer came
  // after the StopClat before it.  A stop that finds the service discovering makes no call and keeps
  // the prefix.
  lemma PrefixIsLatest(netId: int, v6Iface: string, es: seq<Event>, i: nat)
    requires i < |Run(Init(netId, v6Iface), es).calls| && i % 2 == 0
    ensures var s := Run(Init(netId, v6Iface), es);
            s.calls[i].StartClat? && exists j :: LatestFor(s.found, j, s.calls[i].prefix, i)
  {
    ClatCallsAlternate(netId, v6Iface, es);
    SourceRun(Init(netId, v6Iface), es);
    var s := Run(Init(netId, v6Iface), es);
    assert InTurn(s.calls, i) && Sourced(s.calls, s.found, i);
  }

  // ---------------------------------------------------------------- a successful discovery

  // The queue takes its n oldest updates one after the other.
  function Drain(n: nat): seq<Event> {
    if n == 0 then [] else [RunQueue] + Drain(n - 1)
  }

  lemma DrainFirst(s: State, n: nat)
    requires n > 0
    ensures Run(s, Drain(n)) == Run(Next(s, RunQueue), Drain(n - 1))
  {
    assert Drain(n)[1..] == Drain(n - 1);
  }

  // The state once everything that waits in the queue has been executed.
  function Drained(s: State): State { Run(s, Drain(|s.queue|)) }

  lemma DrainedNext(s: State)
    requires s.queue != []
    ensures Drained(s) == Drained(Next(s, RunQueue))
  {
    DrainFirst(s, |s.queue|);
  }

  // Updates leave the back-off, the queries and the sleepers alone; without a stop among them, and
  // unless the service is idle, the tasks too.
  lemma {:induction false} DrainedFrame(s: State)
    ensures var t := Drained(s);
            && t.queue == [] && t.cycleMs == s.cycleMs && t.iter == s.iter
            && t.queries == s.queries && t.asleep == s.asleep
            && (Stop !in s.queue && !s.service.Idle? ==> t.ready == s.ready && t.tryStop == s.tryStop)
    decreases |s.queue|
  {
    if s.queue != [] {
      DrainedNext(s);
      DrainedFrame(Next(s, RunQueue));
    }
  }

  // The last update decides: the service ends idle iff it is a stop.
  lemma {:induction false} DrainedIdleIff(s: State)
    requires s.queue != []
    ensures Drained(s).service.Idle? <==> s.queue[|s.queue| - 1].Stop?
    decreases |s.queue|
  {
    var t := Next(s, RunQueue);
    DrainedNext(s);
    if t.queue != [] {
      DrainedIdleIff(t);
    } else {
      assert Drained(t) == t;
    }
  }

  // Without a prefix no update starts CLAT.
  lemma {:induction false} DrainedWithoutPrefix(s: State)
    requires !s.service.Running? && s.prefix == ""
    ensures var t := Drained(s); !t.service.Running? && t.calls == s.calls && t.prefix == ""
    decreases |s.queue|
  {
    if s.queue != [] {
      DrainedNext(s);
      DrainedWithoutPrefix(Next(s, RunQueue));
    }
  }

  // A running service stops once, if it is told to at all.
  lemma {:induction false} DrainedRunning(s: State)
    requires s.service.Running?
    ensures var t := Drained(s);
            && t.calls == s.calls + (if Stop in s.queue then [StopClat(s.v6Iface)] else [])
            && (t.service.Running? <==> Stop !in s.queue)
    decreases |s.queue|
  {
    if s.queue != [] {
      var t := Next(s, RunQueue);
      DrainedNext(s);
      assert s.queue == [s.queue[0]] + t.queue;
      if s.queue[0].Stop? { DrainedWithoutPrefix(t); } else { DrainedRunning(t); }
    }
  }

  // Two continues in a row, and the first place where they are.
  predicate PairAt(w: seq<UpdateFlag>, i: nat) {
    i + 1 < |w| && w[i].Continue? && w[i + 1].Continue?
  }

  ghost predicate FirstPairAt(w: seq<UpdateFlag>, i: nat) {
    PairAt(w, i) && forall j: nat :: j < i ==> !PairAt(w, j)
  }

  // The update that explains the state of a service that is not running.
  function Before(s: State): UpdateFlag { if s.service.Discovering? then Continue else Stop }

  // What comes of the updates w when a prefix is known: CLAT is started by the first two continues
  // in a row, and stopped again by a stop behind them.
  ghost predicate StartedBy(s: State, t: State, w: seq<UpdateFlag>, i: nat)
    requires i <= |w|
  {
    && t.calls == s.calls + [StartClat(s.v6Iface, s.netId, s.prefix)]
                          + (if Stop in w[i..] then [StopClat(s.v6Iface)] else [])
    && (t.service.Running? <==> Stop !in w[i..])
  }

  lemma PairsOfTail(w: seq<UpdateFlag>, i: nat)
    requires w != [] && !PairAt(w, 0)
    ensures (forall j: nat :: !PairAt(w, j)) ==> forall j: nat :: !PairAt(w[1..], j)
    ensures FirstPairAt(w, i) ==> i > 0 && FirstPairAt(w[1..], i - 1) && w[1..][i - 1..] == w[i..]
  {
    assert forall j: nat :: PairAt(w[1..], j) ==> PairAt(w, j + 1);
  }

  // One update of a service that knows a prefix and is not running.
  lemma UpdateWithPrefix(s: State)
    requires !s.service.Running? && s.prefix != "" && s.queue != []
    ensures var n := Next(s, RunQueue);
            && n.queue == s.queue[1..] && n.v6Iface == s.v6Iface && n.netId == s.netId
            && if s.service.Discovering? && s.queue[0].Continue? then
                 n.service.Running? && n.calls == s.calls + [StartClat(s.v6Iface, s.netId, s.prefix)]
               else
                 !n.service.Running? && n.calls == s.calls && n.prefix == s.prefix && Before(n) == s.queue[0]
  {
  }

  lemma {:induction false} DrainedWithPrefix(s: State, i: nat)
    requires !s.service.Running? && s.prefix != ""
    ensures var t, w := Drained(s), [Before(s)] + s.queue;
            && ((forall j: nat :: !PairAt(w, j)) ==>
                  !t.service.Running? && t.calls == s.calls && t.prefix == s.prefix)
            && (FirstPairAt(w, i) ==> StartedBy(s, t, w, i))
    decreases |s.queue|
  {
    var w := [Before(s)] + s.queue;
    if s.queue != [] {
      var n := Next(s, RunQueue);
      DrainedNext(s);
      UpdateWithPrefix(s);
      hide Next, Drained;
      assert w[1..] == s.queue == [s.queue[0]] + n.queue;
      if PairAt(w, 0) {
        DrainedRunning(n);
        assert i > 0 ==> !FirstPairAt(w, i);
        assert w[0..] == w == [Continue, Continue] + n.queue;
      } else {
        PairsOfTail(w, i);
        hide PairAt, FirstPairAt;
        DrainedWithPrefix(n, if i > 0 then i - 1 else 0);
      }
    }
  }

  function Answered(s: State, prefix: string): State
    requires s.ready > 0
  {
    ResetBackoff(s).(ready := s.ready - 1, queries := s.queries + 1, prefix := prefix,
                     queue := s.queue + [Continue], found := s.found + [Found(prefix, |s.calls|)])
  }

  lemma AnsweredRun(s: State, prefix: string)
    requires s.ready > 0 && !s.tryStop
    ensures Run(s, [Discover(Resolved(prefix))] + Drain(|s.queue| + 1)) == Drained(Answered(s, prefix))
  {
    hide Run, Drain;
    RunAppend(s, [Discover(Resolved(prefix))], Drain(|s.queue| + 1));
    RunOne(s, Discover(Resolved(prefix)));
  }

  lemma NoStopFirstPair(queue: seq<UpdateFlag>)
    requires Stop !in queue
    ensures var w := [Continue] + queue + [Continue]; FirstPairAt(w, 0) && Stop !in w
  {
  }

  // A discovery is answered while any updates wait in the queue, and all of them are executed, the
  // Continue of the discovery last.  With the Continue that started the discovery in front, CLAT is
  // started iff there is a prefix and two continues follow each other; and the service never ends
  // idle, whatever stops were waiting.
  lemma DiscoveryStartsClat(s: State, prefix: string, i: nat)
    requires s.service.Discovering? && s.ready > 0 && !s.tryStop
    ensures var t := Run(s, [Discover(Resolved(prefix))] + Drain(|s.queue| + 1));
            var w := [Continue] + s.queue + [Continue];
            && !t.service.Idle? && t.queue == []
            && t.cycleMs == INITIAL_DISCOVERY_CYCLE_MS && t.iter == 1
            && t.queries == s.queries + 1 && t.asleep == s.asleep
            && (prefix == "" || (forall j: nat :: !PairAt(w, j)) ==>
                  t.service.Discovering? && t.calls == s.calls && t.prefix == prefix)
            && (prefix != "" && FirstPairAt(w, i) ==> StartedBy(s.(prefix := prefix), t, w, i))
            && (Stop !in s.queue ==>
                  && t.ready == s.ready - 1 && !t.tryStop
                  && (prefix != "" ==>
                        t.service.Running? && t.calls == s.calls + [StartClat(s.v6Iface, s.netId, prefix)]))
  {
    hide Next, Drained, Run, PairAt;
    AnsweredRun(s, prefix);
    var s1 := Answered(s, prefix);
    DrainedFrame(s1);
    DrainedIdleIff(s1);
    var w := [Continue] + s.queue + [Continue];
    assert w == [Before(s1)] + s1.queue;
    if prefix == "" {
      DrainedWithoutPrefix(s1);
    } else {
      DrainedWithPrefix(s1, i);
      if Stop !in s.queue {
        DrainedWithPrefix(s1, 0);
        NoStopFirstPair(s.queue);
        assert w[0..] == w;
      }
    }
  }

  lemma {:induction false} SomePairIsFirst(w: seq<UpdateFlag>, j: nat) returns (i: nat)
    requires PairAt(w, j)
    ensures FirstPairAt(w, i)
    decreases j
  {
    if k: nat :| k < j && PairAt(w, k) { i := SomePairIsFirst(w, k); } else { i := j; }
  }

  // CLAT is started at all iff there is a prefix and a pair of continues.
  lemma DiscoveryStartsIff(s: State, prefix: string)
    requires s.service.Discovering? && s.ready > 0 && !s.tryStop
    ensures var t := Run(s, [Discover(Resolved(prefix))] + Drain(|s.queue| + 1));
            var w := [Continue] + s.queue + [Continue];
            t.calls != s.calls <==> prefix != "" && exists j: nat :: PairAt(w, j)
  {
    var w := [Continue] + s.queue + [Continue];
    DiscoveryStartsClat(s, prefix, 0);
    if prefix != "" && exists j: nat :: PairAt(w, j) {
      var j: nat :| PairAt(w, j);
      var i := SomePairIsFirst(w, j);
      DiscoveryStartsClat(s, prefix, i);
    }
  }

  // So a single stop that waits behind a discovery is undone by the answer: the service is
  // discovering again, though nobody has asked for it since.  With one more Continue it runs.
  lemma StopUndone(s: State, prefix: string)
    requires s.service.Discovering? && s.ready > 0 && !s.tryStop && prefix != ""
    ensures var t := Run(s.(queue := [Stop]), [Discover(Resolved(prefix))] + Drain(2));
            t.service.Discovering? && t.calls == s.calls && t.prefix == prefix
    ensures var t := Run(s.(queue := [Stop, Continue]), [Discover(Resolved(prefix))] + Drain(3));
            t.service.Running? && t.calls == s.calls + [StartClat(s.v6Iface, s.netId, prefix)]
  {
    var v, w := [Continue] + [Stop] + [Continue], [Continue] + [Stop, Continue] + [Continue];
    assert forall j: nat :: !PairAt(v, j);
    assert FirstPairAt(w, 2) && Stop !in w[2..];
    DiscoveryStartsClat(s.(queue := [Stop]), prefix, 0);
    DiscoveryStartsClat(s.(queue := [Stop, Continue]), prefix, 2);
  }

  // ---------------------------------------------------------------- back-off

  // No more than k discovery tasks are asleep at any point of the run.
  ghost predicate AsleepAtMost(s: State, es: seq<Event>, k: nat)
    decreases |es|
  {
    s.asleep <= k && (es != [] ==> AsleepAtMost(Next(s, es[0]), es[1..], k))
  }

  // The cycle has not wrapped: it is the initial cycle doubled once per iteration.
  ghost predicate CycleExact(s: State) {
    s.iter >= 1 && s.cycleMs == INITIAL_DISCOVERY_CYCLE_MS * Pow2(s.iter - 1)
  }

  ghost predicate BackoffInv(s: State, k: nat) {
    CycleExact(s) && s.iter + s.asleep <= 10 + k
  }

  lemma CycleLimits(iter: nat)
    requires 1 <= iter <= 26
    ensures 100 * Pow2(iter - 1) < TWO_32
    ensures 100 * Pow2(iter - 1) <= MAX_DISCOVERY_CYCLE_MS <==> iter <= 10
  {
    assert Pow2(9) == 512 && Pow2(10) == 1024;
    assert Pow2(25) == 0x200_0000 by {
      Pow2Add(10, 10);
      Pow2Add(20, 5);
      assert Pow2(5) == 32;
    }
    Pow2Monotone(iter - 1, 25);
    if iter <= 10 {
      Pow2Monotone(iter - 1, 9);
    } else {
      Pow2Monotone(10, iter - 1);
    }
  }

  lemma BackoffWake(s: State, k: nat)
    requires k <= 16
    requires BackoffInv(s, k) && s.asleep > 0
    ensures BackoffInv(WakeUp(s), k)
  {
    hide Pow2;
    CycleLimits(s.iter + 1);
    Pow2Step(s.iter - 1);
  }

  lemma BackoffDiscover(s: State, answer: Answer, k: nat)
    requires k <= 16
    requires BackoffInv(s, k) && s.ready > 0 && DiscoverPrefix(s, answer).asleep <= k
    ensures BackoffInv(DiscoverPrefix(s, answer), k)
  {
    hide Pow2;
    CycleLimits(s.iter);
    Pow2Step(0);
  }

  lemma BackoffStep(s: State, e: Event, k: nat)
    requires k <= 16
    requires BackoffInv(s, k) && Next(s, e).asleep <= k
    ensures BackoffInv(Next(s, e), k)
  {
    match e
    case Wake => if s.asleep > 0 { BackoffWake(s, k); }
    case Discover(answer) => if s.ready > 0 { BackoffDiscover(s, answer, k); }
    case _ =>
  }

  lemma {:induction false} BackoffRun(s: State, es: seq<Event>, k: nat)
    requires k <= 16
    requires BackoffInv(s, k) && AsleepAtMost(s, es, k)
    ensures BackoffInv(Run(s, es), k)
    decreases |es|
  {
    if es != [] {
      BackoffStep(s, es[0], k);
      BackoffRun(Next(s, es[0]), es[1..], k);
    }
  }

  // With at most k <= 16 tasks asleep together the 32-bit cycle and the 8-bit counter never wrap.
  lemma BackoffBound(netId: int, v6Iface: string, es: seq<Event>, k: nat)
    requires k <= 16
    requires AsleepAtMost(Init(netId, v6Iface), es, k)
    ensures var s := Run(Init(netId, v6Iface), es);
            && s.iter + s.asleep <= 10 + k
            && 1 <= s.iter
            && s.cycleMs == INITIAL_DISCOVERY_CYCLE_MS * Pow2(s.iter - 1) < TWO_32
  {
    BackoffRun(Init(netId, v6Iface), es, k);
    CycleLimits(Run(Init(netId, v6Iface), es).iter);
  }

  // t is reached from s by some run during which at most k tasks are asleep together.
  ghost predicate Reaches(s: State, t: State, k: nat) {
    exists es :: AsleepAtMost(s, es, k) && Run(s, es) == t
  }

  lemma {:induction false} AsleepAppend(s: State, a: seq<Event>, b: seq<Event>, k: nat)
    requires AsleepAtMost(s, a, k) && AsleepAtMost(Run(s, a), b, k)
    ensures AsleepAtMost(s, a + b, k)
    decreases |a|
  {
    if a == [] {
      assert a + b == b;
    } else {
      assert (a + b)[1..] == a[1..] + b;
      AsleepAppend(Next(s, a[0]), a[1..], b, k);
    }
  }

  lemma ReachesThen(s: State, t: State, u: State, k: nat)
    requires Reaches(s, t, k) && Reaches(t, u, k)
    ensures Reaches(s, u, k)
  {
    var a :| AsleepAtMost(s, a, k) && Run(s, a) == t;
    var b :| AsleepAtMost(t, b, k) && Run(t, b) == u;
    AsleepAppend(s, a, b, k);
    RunAppend(s, a, b);
  }

  lemma ReachesNext(s: State, e: Event, k: nat)
    requires s.asleep <= k && Next(s, e).asleep <= k
    ensures Reaches(s, Next(s, e), k)
  {
    assert [e][1..] == [];
    assert AsleepAtMost(Next(s, e), [], k);
    assert AsleepAtMost(s, [e], k);
    assert Run(s, [e]) == Next(s, e);
  }

  // An update flag pushed through the queue at once.
  lemma ReachesUpdate(s: State, flag: UpdateFlag, k: nat)
    requires s.asleep <= k && s.queue == []
    ensures Reaches(s, UpdateServiceState(s, flag), k)
  {
    hide Reaches;
    var t := Next(s, Submit(flag));
    assert t.queue == [flag] && t.queue[1..] == [];
    assert t.(queue := []) == s;
    ReachesNext(s, Submit(flag), k);
    ReachesNext(t, RunQueue, k);
    ReachesThen(s, t, UpdateServiceState(s, flag), k);
  }

  lemma ReachesSelf(s: State, k: nat)
    requires s.asleep <= k
    ensures Reaches(s, s, k)
  {
    assert AsleepAtMost(s, [], k) && Run(s, []) == s;
  }

  // Stop/Continue pairs that arrive before any task runs: each leaves one more task behind, and
  // all their stop requests share the one flag.
  lemma {:induction false} Toggles(s: State, n: nat, k: nat)
    requires s.service.Discovering? && s.queue == [] && s.asleep <= k && s.tryStop
    ensures Reaches(s, s.(ready := s.ready + n), k)
    decreases n
  {
    hide Reaches;
    if n == 0 {
      ReachesSelf(s, k);
    } else {
      var idle := UpdateServiceState(s, Stop);
      var t := UpdateServiceState(idle, Continue);
      assert t == s.(ready := s.ready + 1);
      ReachesUpdate(s, Stop, k);
      ReachesUpdate(idle, Continue, k);
      ReachesThen(s, idle, t, k);
      Toggles(t, n - 1, k);
      ReachesThen(s, t, s.(ready := s.ready + n), k);
    }
  }

  // One task fails and wakes n times.
  lemma {:induction false} Climb(s: State, n: nat, k: nat) returns (t: State)
    requires CycleExact(s) && s.iter + n <= 10 && !s.tryStop && s.ready > 0 && s.asleep < k
    ensures Reaches(s, t, k) && CycleExact(t) && t.iter == s.iter + n
    ensures t.ready == s.ready && t.asleep == s.asleep && !t.tryStop
    decreases n
  {
    hide Reaches, Pow2;
    if n == 0 {
      t := s;
      ReachesSelf(s, k);
    } else {
      CycleLimits(s.iter);
      CycleLimits(s.iter + 1);
      var a := Next(s, Discover(QueryFailed));
      var b := Next(a, Wake);
      Pow2Step(s.iter - 1);
      ReachesNext(s, Discover(QueryFailed), k);
      ReachesNext(a, Wake, k);
      ReachesThen(s, a, b, k);
      t := Climb(b, n - 1, k);
      ReachesThen(s, b, t, k);
    }
  }

  // n ready tasks fail and go to sleep.
  lemma {:induction false} SleepAll(s: State, n: nat, k: nat) returns (t: State)
    requires CycleExact(s) && s.iter <= 10 && !s.tryStop && n <= s.ready && s.asleep + n <= k
    ensures Reaches(s, t, k) && t.asleep == s.asleep + n && t.iter == s.iter && t.cycleMs == s.cycleMs
    decreases n
  {
    hide Reaches;
    if n == 0 {
      t := s;
      ReachesSelf(s, k);
    } else {
      CycleLimits(s.iter);
      var a := Next(s, Discover(QueryFailed));
      ReachesNext(s, Discover(QueryFailed), k);
      t := SleepAll(a, n - 1, k);
      ReachesThen(s, a, t, k);
    }
  }

  // n sleeping tasks wake, as far as the cycle still fits in 32 bits.
  lemma {:induction false} WakeAll(s: State, n: nat, k: nat) returns (t: State)
    requires CycleExact(s) && n <= s.asleep <= k && s.iter + n <= 26
    ensures Reaches(s, t, k) && CycleExact(t) && t.iter == s.iter + n && t.asleep == s.asleep - n
    decreases n
  {
    hide Reaches, Pow2;
    if n == 0 {
      t := s;
      ReachesSelf(s, k);
    } else {
      CycleLimits(s.iter + 1);
      var a := Next(s, Wake);
      Pow2Step(s.iter - 1);
      ReachesNext(s, Wake, k);
      t := WakeAll(a, n - 1, k);
      ReachesThen(s, a, t, k);
    }
  }

  // 18 tasks are made ready, and one of them takes the stop flag.
  lemma ReadyTasks(netId: int, v6Iface: string) returns (t: State)
    ensures Reaches(Init(netId, v6Iface), t, 17)
    ensures CycleExact(t) && t.iter == 1 && !t.tryStop && t.ready == 17 && t.asleep == 0
  {
    hide Reaches;
    var s0 := Init(netId, v6Iface);
    var s1 := UpdateServiceState(s0, Continue);
    var s2 := UpdateServiceState(s1, Stop);
    var s3 := UpdateServiceState(s2, Continue);
    ReachesUpdate(s0, Continue, 17);
    ReachesUpdate(s1, Stop, 17);
    ReachesThen(s0, s1, s2, 17);
    ReachesUpdate(s2, Continue, 17);
    ReachesThen(s0, s2, s3, 17);
    var s4 := s3.(ready := s3.ready + 16);
    Toggles(s3, 16, 17);
    ReachesThen(s0, s3, s4, 17);
    t := Next(s4, Discover(QueryFailed));
    ReachesNext(s4, Discover(QueryFailed), 17);
    ReachesThen(s0, s4, t, 17);
    assert Pow2(0) == 1;
  }

  // Of 17 ready tasks one climbs to iteration 10, then all go to sleep and all wake up: iteration
  // 27, whose cycle needs 33 bits.
  lemma CycleWraps(netId: int, v6Iface: string) returns (t: State)
    ensures Reaches(Init(netId, v6Iface), t, 17) && !CycleExact(t)
  {
    hide Reaches;
    var s0 := Init(netId, v6Iface);
    var s5 := ReadyTasks(netId, v6Iface);
    var s6 := Climb(s5, 9, 17);
    ReachesThen(s0, s5, s6, 17);
    var s7 := SleepAll(s6, 17, 17);
    ReachesThen(s0, s6, s7, 17);
    var s8 := WakeAll(s7, 16, 17);
    ReachesThen(s0, s7, s8, 17);
    t := Next(s8, Wake);
    ReachesNext(s8, Wake, 17);
    ReachesThen(s0, s8, t, 17);
    NeedsMoreBits(s8);
  }

  lemma NeedsMoreBits(s: State)
    requires CycleExact(s) && s.iter == 26 && s.asleep > 0
    ensures !CycleExact(WakeUp(s))
  {
    assert Pow2(25) == 0x200_0000 && Pow2(26) == 0x400_0000 by {
      Pow2Add(10, 10);
      Pow2Add(20, 5);
      assert Pow2(10) == 1024 && Pow2(5) == 32;
    }
  }

  lemma {:induction false} AsleepWeaken(s: State, es: seq<Event>, j: nat, k: nat)
    requires j <= k && AsleepAtMost(s, es, j)
    ensures AsleepAtMost(s, es, k)
    decreases |es|
  {
    if es != [] {
      AsleepWeaken(Next(s, es[0]), es[1..], j, k);
    }
  }

  ghost predicate CycleNeverWraps(netId: int, v6Iface: string, k: nat) {
    forall es :: AsleepAtMost(Init(netId, v6Iface), es, k) ==> CycleExact(Run(Init(netId, v6Iface), es))
  }

  // 16 is the exact limit: with 17 tasks asleep together the cycle can wrap.
  lemma CycleNeverWrapsIff(netId: int, v6Iface: string, k: nat)
    ensures CycleNeverWraps(netId, v6Iface, k) <==> k <= 16
  {
    var s0 := Init(netId, v6Iface);
    if k <= 16 {
      forall es | AsleepAtMost(s0, es, k)
        ensures CycleExact(Run(s0, es))
      {
        BackoffBound(netId, v6Iface, es, k);
      }
    } else {
      var t := CycleWraps(netId, v6Iface);
      var es :| AsleepAtMost(s0, es, 17) && Run(s0, es) == t;
      AsleepWeaken(s0, es, 17, k);
    }
  }

  // ---------------------------------------------------------------- wrapping counters

  // A query that fails puts its task to sleep iff the cycle is at most 100000 ms, even a cycle that
  // has wrapped; otherwise the task is gone.
  lemma FailedQuerySleepsIff(s: State)
    requires s.ready > 0 && !s.tryStop
    ensures var t := Next(s, Discover(QueryFailed));
            && (t.asleep == s.asleep + 1 <==> s.cycleMs <= 100000)
            && t.ready + t.asleep == s.ready + s.asleep - (if s.cycleMs <= 100000 then 0 else 1)
  {
  }

  function Wakes(n: nat): seq<Event> {
    if n == 0 then [] else Wakes(n - 1) + [Wake]
  }

  lemma RemainderIs(x: int, q: int, r: int)
    requires x == 0x1_0000_0000 * q + r && 0 <= r < 0x1_0000_0000
    ensures x % 0x1_0000_0000 == r
  {
  }

  lemma DoubleMod(x: nat)
    ensures (x % 0x1_0000_0000 * 2) % 0x1_0000_0000 == (x * 2) % 0x1_0000_0000
  {
    var q, r := x / 0x1_0000_0000, x % 0x1_0000_0000;
    if r < 0x8000_0000 {
      RemainderIs(2 * x, 2 * q, 2 * r);
      RemainderIs(2 * r, 0, 2 * r);
    } else {
      RemainderIs(2 * x, 2 * q + 1, 2 * r - 0x1_0000_0000);
      RemainderIs(2 * r, 1, 2 * r - 0x1_0000_0000);
    }
  }

  lemma CountMod(x: nat)
    ensures (x % 256 + 1) % 256 == (x + 1) % 256
  {
  }

  // The state after n wake-ups: the iteration counts in 8 bits and the cycle doubles in 32.
  function Woken(s: State, n: nat): State
    requires n <= s.asleep
  {
    s.(asleep := s.asleep - n, ready := s.ready + n, iter := (s.iter + n) % 256,
       cycleMs := (s.cycleMs * Pow2(n)) % 0x1_0000_0000)
  }

  lemma WokenNext(s: State, n: nat)
    requires 0 < n <= s.asleep
    ensures Next(Woken(s, n - 1), Wake) == Woken(s, n)
  {
    Pow2Step(n - 1);
    hide Pow2;
    CountMod(s.iter + n - 1);
    DoubleMod(s.cycleMs * Pow2(n - 1));
    assert s.cycleMs * Pow2(n) == s.cycleMs * Pow2(n - 1) * 2;
  }

  lemma {:induction false} WakesWrap(s: State, n: nat)
    requires n <= s.asleep && s.iter < 256 && s.cycleMs < 0x1_0000_0000
    ensures Run(s, Wakes(n)) == Woken(s, n)
    decreases n
  {
    if n == 0 {
      assert Pow2(0) == 1;
    } else {
      WakesWrap(s, n - 1);
      WokenNext(s, n);
      hide Woken, Next;
      RunAppend(s, Wakes(n - 1), [Wake]);
      RunOne(Run(s, Wakes(n - 1)), Wake);
    }
  }

  // ---------------------------------------------------------------- a lone failing chain

  function TotalMs(slept: seq<nat>): nat {
    if slept == [] then 0 else TotalMs(slept[..|slept| - 1]) + slept[|slept| - 1]
  }

  // What may happen beside a lone chain: its queries fail, it wakes up, clients repeat Continue or
  // rename the interface, and the queue runs.
  predicate Beside(e: Event) {
    match e
    case Submit(flag) => flag == Continue
    case Discover(answer) => answer == QueryFailed
    case _ => true
  }

  ghost predicate Failing(es: seq<Event>) {
    forall i :: 0 <= i < |es| ==> Beside(es[i])
  }

  // The service right after its first Continue.
  function Started(netId: int, v6Iface: string): State {
    UpdateServiceState(Init(netId, v6Iface), Continue)
  }

  // Events the chain still takes part in: a query and a wake-up per iteration, and a last query.
  function Remaining(s: State): int {
    if s.ready + s.asleep == 0 then 0
    else if s.ready > 0 then 2 * (11 - s.iter) + 1
    else 2 * (11 - s.iter)
  }

  // The event is a query or a wake-up of some discovery task.
  predicate Moves(s: State, e: Event) {
    (e.Discover? && s.ready > 0) || (e.Wake? && s.asleep > 0)
  }

  // How many of the events moved a discovery task.
  function Effective(s: State, es: seq<Event>): nat
    decreases |es|
  {
    if es == [] then 0
    else (if Moves(s, es[0]) then 1 else 0) + Effective(Next(s, es[0]), es[1..])
  }

  // A discovery with one task that has not queried yet, and the back-off at its start.
  ghost predicate Fresh(s: State) {
    && s.service.Discovering? && Stop !in s.queue && s.prefix == "" && !s.tryStop
    && s.ready == 1 && s.asleep == 0 && s.cycleMs == 100 && s.iter == 1
  }

  // A chain that was fresh in state b.
  ghost predicate ChainInv(b: State, s: State) {
    var n := |s.slept| - |b.slept|;
    && s.service.Discovering? && Stop !in s.queue && s.prefix == "" && s.calls == b.calls
    && !s.tryStop && s.ready + s.asleep <= 1
    && CycleExact(s) && s.iter <= 11 && n >= 0 && s.iter + s.asleep == n + 1
    && (s.asleep == 1 ==> s.iter <= 10)
    && TotalMs(s.slept) == TotalMs(b.slept) + 100 * (Pow2(n) - 1)
    && s.queries == b.queries + n + (if s.ready + s.asleep == 0 then 1 else 0)
    && (s.ready + s.asleep == 0 ==> s.iter == 11)
  }

  lemma TotalMsAppend(slept: seq<nat>, ms: nat)
    ensures TotalMs(slept + [ms]) == TotalMs(slept) + ms
  {
    assert (slept + [ms])[..|slept|] == slept;
  }

  lemma ChainWake(b: State, s: State)
    requires ChainInv(b, s) && s.asleep > 0
    ensures ChainInv(b, WakeUp(s)) && Remaining(WakeUp(s)) == Remaining(s) - 1
  {
    hide Pow2, TotalMs;
    CycleLimits(s.iter + 1);
    Pow2Step(s.iter - 1);
  }

  lemma ChainDiscover(b: State, s: State)
    requires ChainInv(b, s) && s.ready > 0
    ensures ChainInv(b, DiscoverPrefix(s, QueryFailed))
    ensures Remaining(DiscoverPrefix(s, QueryFailed)) == Remaining(s) - 1
  {
    hide Pow2, TotalMs;
    CycleLimits(s.iter);
    Pow2Step(|s.slept| - |b.slept|);
    TotalMsAppend(s.slept, s.cycleMs);
  }

  // Every event the chain takes part in brings it one step closer to its end.
  lemma ChainStep(b: State, s: State, e: Event)
    requires ChainInv(b, s) && Beside(e)
    ensures ChainInv(b, Next(s, e))
    ensures Remaining(Next(s, e)) == if Moves(s, e) then Remaining(s) - 1 else Remaining(s)
    ensures 0 <= Remaining(s) && (Remaining(s) == 0 <==> s.ready + s.asleep == 0)
  {
    hide Pow2, TotalMs;
    if e.Wake? && s.asleep > 0 {
      ChainWake(b, s);
    } else if e.Discover? && s.ready > 0 {
      ChainDiscover(b, s);
    }
  }

  lemma {:induction false} ChainRun(b: State, s: State, es: seq<Event>)
    requires ChainInv(b, s) && Failing(es)
    ensures ChainInv(b, Run(s, es))
    ensures Remaining(Run(s, es)) == Remaining(s) - Effective(s, es)
    decreases |es|
  {
    if es != [] {
      ChainStep(b, s, es[0]);
      hide ChainInv;
      ChainRun(b, Next(s, es[0]), es[1..]);
    }
  }

  lemma ChainBounds(b: State, s: State)
    requires ChainInv(b, s)
    ensures s.queries <= b.queries + 11 && |s.slept| <= |b.slept| + 10
    ensures TotalMs(s.slept) <= TotalMs(b.slept) + 102300
    ensures s.ready + s.asleep == 0 ==> s.queries == b.queries + 11 && |s.slept| == |b.slept| + 10
                                        && TotalMs(s.slept) == TotalMs(b.slept) + 102300
  {
    assert Pow2(10) == 1024;
    Pow2Monotone(|s.slept| - |b.slept|, 10);
    hide Pow2, TotalMs;
  }

  // Whatever the schedule, and whatever clients submit short of a stop, a fresh lone chain whose
  // queries all fail never exceeds 11 queries and 102300 ms of sleep; it is over exactly after 21
  // events that concern it, and has then sent exactly 11 queries and slept 10 times, 102300 ms in all.
  lemma LoneChain(b: State, es: seq<Event>)
    requires Fresh(b) && Failing(es)
    ensures var s, n := Run(b, es), Effective(b, es);
            && s.queries <= b.queries + 11 && |s.slept| <= |b.slept| + 10
            && TotalMs(s.slept) <= TotalMs(b.slept) + 102300
            && n <= 21 && (s.ready == 0 && s.asleep == 0 <==> n == 21)
            && (n == 21 ==> s.queries == b.queries + 11 && |s.slept| == |b.slept| + 10
                            && TotalMs(s.slept) == TotalMs(b.slept) + 102300)
            && (n == 21 ==> Stalled(s)) && s.calls == b.calls
  {
    assert Pow2(0) == 1;
    ChainRun(b, b, es);
    ChainStep(b, Run(b, es), Wake);
    hide Run, Effective, Pow2, TotalMs;
    ChainBounds(b, Run(b, es));
  }

  // The first Continue starts a fresh chain.
  lemma StartedIsFresh(netId: int, v6Iface: string)
    ensures Fresh(Started(netId, v6Iface))
    ensures var s := Started(netId, v6Iface); s.queries == 0 && s.slept == [] && s.calls == []
  {
  }

  // A discovery is stopped while its one task is ready or asleep, the task takes the stop flag, and
  // the service is started again.
  const RESTART_TAKEN := [Submit(Stop), RunQueue, Wake, Discover(QueryFailed), Submit(Continue), RunQueue]

  lemma RunTwo(s: State, d: Event, e: Event)
    ensures Run(s, [d, e]) == Next(Next(s, d), e)
  {
    assert [d, e] == [d] + [e];
    RunAppend(s, [d], [e]);
    RunOne(s, d);
    RunOne(Next(s, d), e);
  }

  // An update flag pushed through an empty queue at once.
  lemma RunUpdate(s: State, flag: UpdateFlag)
    requires s.queue == []
    ensures Run(s, [Submit(flag), RunQueue]) == UpdateServiceState(s, flag)
  {
    RunTwo(s, Submit(flag), RunQueue);
    hide Run;
    var t := Next(s, Submit(flag));
    assert t.queue == [flag] && t.queue[1..] == [];
    assert t.(queue := []) == s;
  }

  // The one task alive takes the stop flag and ends; the back-off is at its start.
  lemma FlagTaken(s: State)
    requires s.tryStop && s.ready + s.asleep == 1
    ensures Run(s, [Wake, Discover(QueryFailed)])
         == s.(tryStop := false, ready := 0, asleep := 0, cycleMs := 100, iter := 1)
  {
    RunTwo(s, Wake, Discover(QueryFailed));
    hide Run;
  }

  lemma RestartIsFresh(s: State)
    requires s.service.Discovering? && s.queue == [] && s.ready + s.asleep == 1 && !s.tryStop && s.prefix == ""
    ensures Run(s, RESTART_TAKEN) == s.(ready := 1, asleep := 0, cycleMs := 100, iter := 1)
  {
    var a, b, c := [Submit(Stop), RunQueue], [Wake, Discover(QueryFailed)], [Submit(Continue), RunQueue];
    assert RESTART_TAKEN == a + b + c;
    RunAppend(s, a, b);
    RunAppend(s, a + b, c);
    hide Run, Next;
    RunUpdate(s, Stop);
    FlagTaken(Run(s, a));
    RunUpdate(Run(s, a + b), Continue);
  }

  // However far the back-off had come, the restarted chain has the whole of it again: 11 further
  // queries and 102300 ms of sleep until it gives up.
  lemma RestartedChain(s: State, es: seq<Event>)
    requires s.service.Discovering? && s.queue == [] && s.ready + s.asleep == 1 && !s.tryStop && s.prefix == ""
    requires Failing(es) && Effective(Run(s, RESTART_TAKEN), es) == 21
    ensures var t := Run(s, RESTART_TAKEN + es);
            && t.queries == s.queries + 11 && |t.slept| == |s.slept| + 10
            && TotalMs(t.slept) == TotalMs(s.slept) + 102300 && Stalled(t)
  {
    RestartIsFresh(s);
    RunAppend(s, RESTART_TAKEN, es);
    LoneChain(Run(s, RESTART_TAKEN), es);
  }

  // ---------------------------------------------------------------- a stale stop request

  predicate TaskEvent(e: Event) { e.Discover? || e.Wake? }

  // Some schedule of the discovery tasks alone sends another query.
  ghost predicate CanQuery(s: State) {
    exists es :: (forall e <- es :: TaskEvent(e)) && Run(s, es).queries > s.queries
  }

  // Tasks alive, less the one the stop flag will end.
  function Surplus(s: State): int {
    s.ready + s.asleep - (if s.tryStop then 1 else 0)
  }

  lemma {:induction false} NoSurplusNoQuery(s: State, es: seq<Event>)
    requires Surplus(s) <= 0 && forall e <- es :: TaskEvent(e)
    ensures Run(s, es).queries == s.queries
    decreases |es|
  {
    if es != [] {
      assert TaskEvent(es[0]);
      NoSurplusNoQuery(Next(s, es[0]), es[1..]);
    }
  }

  lemma CanQueryAfter(s: State, e: Event)
    requires TaskEvent(e) && (CanQuery(Next(s, e)) || Next(s, e).queries > s.queries)
    ensures CanQuery(s)
  {
    if Next(s, e).queries > s.queries {
      assert [e][1..] == [];
      assert Run(s, [e]) == Next(s, e);
    } else {
      var es :| (forall e <- es :: TaskEvent(e)) && Run(Next(s, e), es).queries > Next(s, e).queries;
      assert ([e] + es)[1..] == es;
      assert Run(s, [e] + es).queries > s.queries;
    }
  }

  lemma {:induction false} SurplusQueries(s: State)
    requires Surplus(s) > 0
    ensures CanQuery(s)
    decreases s.tryStop, s.asleep
  {
    if s.ready == 0 {
      SurplusQueries(Next(s, Wake));
      CanQueryAfter(s, Wake);
    } else {
      if s.tryStop { SurplusQueries(Next(s, Discover(QueryFailed))); }
      CanQueryAfter(s, Discover(QueryFailed));
    }
  }

  // The tasks of a state can send another query exactly when more are alive than the stop flag ends.
  lemma QueryPossibleIff(s: State)
    ensures CanQuery(s) <==> s.ready + s.asleep > if s.tryStop then 1 else 0
  {
    if Surplus(s) > 0 {
      SurplusQueries(s);
    } else {
      forall es | forall e <- es :: TaskEvent(e) ensures Run(s, es).queries == s.queries {
        NoSurplusNoQuery(s, es);
      }
    }
  }

  // n times Stop and Continue, before any task runs.
  function Restarts(n: nat): seq<Event> {
    if n == 0 then [] else [Submit(Stop), RunQueue, Submit(Continue), RunQueue] + Restarts(n - 1)
  }

  lemma RestartOnce(s: State)
    requires s.service.Discovering? && s.queue == []
    ensures Run(s, [Submit(Stop), RunQueue, Submit(Continue), RunQueue])
         == s.(ready := s.ready + 1, tryStop := true)
  {
    var es := [Submit(Stop), RunQueue, Submit(Continue), RunQueue];
    var s1 := Next(s, es[0]);
    var s2 := Next(s1, es[1]);
    var s3 := Next(s2, es[2]);
    assert s2 == s.(tryStop := true, service := Idle);
    assert Run(s, es) == Run(s1, es[1..]) == Run(s2, es[1..][1..]) == Run(s3, es[1..][1..][1..]);
    assert Run(s3, es[1..][1..][1..]) == Next(s3, RunQueue);
  }

  lemma {:induction false} RestartsLeave(s: State, n: nat)
    requires s.service.Discovering? && s.queue == []
    ensures Run(s, Restarts(n)) == s.(ready := s.ready + n, tryStop := s.tryStop || n > 0)
    decreases n
  {
    if n > 0 {
      RestartOnce(s);
      RunAppend(s, [Submit(Stop), RunQueue, Submit(Continue), RunQueue], Restarts(n - 1));
      RestartsLeave(s.(ready := s.ready + 1, tryStop := true), n - 1);
    }
  }

  // After n restarts in a row a query can follow exactly when n tasks and those alive before are
  // more than one.  A single restart of a service whose tasks have all ended sends none: its stop
  // flag ends the very task it starts.
  lemma RestartQueriesIff(s: State, n: nat)
    requires s.service.Discovering? && s.queue == [] && !s.tryStop && n > 0
    ensures CanQuery(Run(s, Restarts(n))) <==> s.ready + s.asleep + n > 1
  {
    RestartsLeave(s, n);
    QueryPossibleIff(Run(s, Restarts(n)));
  }

  // ---------------------------------------------------------------- when a stop holds

  // Everything that happens but a client asking for the service.
  predicate Unasked(e: Event) { e != Submit(Continue) }

  ghost predicate Drifts(s: State, t: State) {
    exists es :: (forall e <- es :: Unasked(e)) && Run(s, es) == t
  }

  // An idle service leaves its state although no client asks for it.
  ghost predicate ComesBack(s: State) {
    exists es :: (forall e <- es :: Unasked(e)) && !Run(s, es).service.Idle?
  }

  ghost predicate RunsAgain(s: State) {
    exists es :: (forall e <- es :: Unasked(e)) && Run(s, es).service.Running?
  }

  lemma DriftsSelf(s: State)
    ensures Drifts(s, s)
  {
    assert Run(s, []) == s;
  }

  lemma DriftsNext(s: State, t: State, e: Event)
    requires Drifts(s, t) && Unasked(e)
    ensures Drifts(s, Next(t, e))
  {
    var es :| (forall e <- es :: Unasked(e)) && Run(s, es) == t;
    RunAppend(s, es, [e]);
    assert [e][1..] == [];
    assert Run(s, es + [e]) == Next(t, e);
  }

  lemma {:induction false} StaysIdle(s: State, es: seq<Event>)
    requires s.service.Idle? && Continue !in s.queue && Surplus(s) <= 0
    requires forall e <- es :: Unasked(e)
    ensures Run(s, es).service.Idle?
    decreases |es|
  {
    if es != [] {
      assert Unasked(es[0]);
      StaysIdle(Next(s, es[0]), es[1..]);
    }
  }

  // A task beyond the one the stop flag ends finds a prefix.
  lemma {:induction false} FindsPrefix(s: State, t: State) returns (u: State)
    requires Drifts(s, t) && Surplus(t) > 0
    ensures Drifts(s, u) && u.service == t.service && u.queue == t.queue + [Continue]
    ensures u.prefix != "" && Surplus(u) == Surplus(t) - 1
    decreases t.tryStop, t.asleep
  {
    hide Drifts;
    if t.ready == 0 {
      DriftsNext(s, t, Wake);
      u := FindsPrefix(s, Next(t, Wake));
    } else {
      u := Next(t, Discover(Resolved("64:ff9b::")));
      DriftsNext(s, t, Discover(Resolved("64:ff9b::")));
      if t.tryStop { u := FindsPrefix(s, u); }
    }
  }

  // The queue of an idle service runs as far as its first Continue.
  lemma {:induction false} FirstContinue(s: State, t: State) returns (u: State)
    requires Drifts(s, t) && t.service.Idle? && Continue in t.queue
    ensures Drifts(s, u) && u.service.Discovering? && u.prefix == t.prefix && Surplus(u) == Surplus(t) + 1
    ensures Continue !in t.queue[..|t.queue| - 1] ==> u.queue == []
    decreases |t.queue|
  {
    hide Drifts;
    u := Next(t, RunQueue);
    DriftsNext(s, t, RunQueue);
    assert t.queue == [t.queue[0]] + u.queue;
    if t.queue[0].Stop? {
      assert u.queue[..|u.queue| - 1] == t.queue[..|t.queue| - 1][1..];
      u := FirstContinue(s, u);
    } else if u.queue != [] {
      assert t.queue[..|t.queue| - 1][0] == Continue;
    }
  }

  // An idle service stays idle, until a client asks for it, iff no Continue is queued and no more
  // discovery tasks are alive than the stop flag will end.
  lemma StopHoldsIff(s: State)
    requires s.service.Idle?
    ensures ComesBack(s) <==> Continue in s.queue || s.ready + s.asleep > if s.tryStop then 1 else 0
  {
    if Continue in s.queue || Surplus(s) > 0 {
      DriftsSelf(s);
      var t := s;
      if Continue !in s.queue { t := FindsPrefix(s, s); }
      t := FirstContinue(s, t);
      var es :| (forall e <- es :: Unasked(e)) && Run(s, es) == t;
      assert !Run(s, es).service.Idle?;
    } else {
      forall es | forall e <- es :: Unasked(e) ensures Run(s, es).service.Idle? { StaysIdle(s, es); }
    }
  }

  // A task that outlives the stop flag can even bring CLAT up again, and nothing else can.
  lemma ClatComesBackIff(s: State)
    requires s.service.Idle? && Continue !in s.queue
    ensures RunsAgain(s) <==> s.ready + s.asleep > if s.tryStop then 1 else 0
  {
    if Surplus(s) > 0 {
      DriftsSelf(s);
      var t := FindsPrefix(s, s);
      assert t.queue[..|t.queue| - 1] == s.queue;
      var u := FirstContinue(s, t);
      var v := FindsPrefix(s, u);
      DriftsNext(s, v, RunQueue);
      var es :| (forall e <- es :: Unasked(e)) && Run(s, es) == Next(v, RunQueue);
      assert Run(s, es).service.Running?;
    } else {
      forall es | forall e <- es :: Unasked(e) ensures Run(s, es).service.Idle? { StaysIdle(s, es); }
    }
  }

  // Said of the stop that is executed next, in whatever state: it holds iff no Continue waits behind
  // it and at most one task is alive to take the flag, or none if no flag is set.
  lemma NextStopHoldsIff(s: State)
    requires s.queue != [] && s.queue[0].Stop?
    ensures var t := Next(s, RunQueue);
            && t.service.Idle?
            && (ComesBack(t) <==> || Continue in s.queue[1..]
                                  || s.ready + s.asleep > if s.tryStop || s.service.Discovering? then 1 else 0)
  {
    StopHoldsIff(Next(s, RunQueue));
  }

  // ---------------------------------------------------------------- a service that has given up

  // Discovery was asked for, but no task is left to carry it out.
  ghost predicate Stalled(s: State) {
    s.service.Discovering? && s.ready == 0 && s.asleep == 0 && s.prefix == "" && !s.tryStop
  }

  // A stop is executed only when no discovery task is alive.
  ghost predicate StopsWhenQuiet(s: State, es: seq<Event>)
    decreases |es|
  {
    es != [] ==>
      && (es[0].RunQueue? && s.queue != [] && s.queue[0].Stop? ==> s.ready + s.asleep == 0)
      && StopsWhenQuiet(Next(s, es[0]), es[1..])
  }

  ghost predicate Silent(s: State) {
    && !s.service.Running? && s.prefix == "" && Surplus(s) <= 0
    && (s.service.Idle? ==> s.ready + s.asleep == 0 && s.tryStop)
  }

  lemma {:induction false} SilentRun(s: State, es: seq<Event>)
    requires Silent(s) && StopsWhenQuiet(s, es)
    ensures Silent(Run(s, es)) && Run(s, es).queries == s.queries && Run(s, es).calls == s.calls
    decreases |es|
  {
    if es != [] {
      SilentRun(Next(s, es[0]), es[1..]);
    }
  }

  // Once a chain has given up, whatever is submitted and however tasks are scheduled, no further
  // query is sent and CLAT is never started, as long as each stop waits for the task before it:
  // its flag outlives the chain it was meant for and ends the task that follows.
  lemma StaleStopStarvesDiscovery(s: State, es: seq<Event>)
    requires Stalled(s) && StopsWhenQuiet(s, es)
    ensures Run(s, es).queries == s.queries && Run(s, es).calls == s.calls
  {
    SilentRun(s, es);
  }

  // So a lone chain that has given up never sends a twelfth query, unless a stop is executed while
  // a task is alive; two restarts in a row do that and make one possible.
  lemma ExhaustedStaysSilent(netId: int, v6Iface: string, es: seq<Event>, more: seq<Event>)
    requires Failing(es) && Effective(Started(netId, v6Iface), es) == 21
    requires StopsWhenQuiet(Run(Started(netId, v6Iface), es), more)
    ensures var s := Run(Started(netId, v6Iface), es + more); s.queries == 11 && s.calls == []
  {
    StartedIsFresh(netId, v6Iface);
    LoneChain(Started(netId, v6Iface), es);
    RunAppend(Started(netId, v6Iface), es, more);
    StaleStopStarvesDiscovery(Run(Started(netId, v6Iface), es), more);
  }

  // ---------------------------------------------------------------- the service object

  // The service as it is written: fields updated in place.  The task system around it is kept
  // in queued, ready and asleep; the history fields are ghost.
  class Nat464Service {
    const netId: int
    var v6Iface: string
    var v4TunIface: string
    var tryStopDiscovery: bool
    var discoveryCycleMs: nat
    var discoveryIter: nat
    var nat64PrefixFromDns: string
    var serviceState: ServiceState
    var queued: seq<UpdateFlag>
    var ready: nat
    var asleep: nat
    ghost var calls: seq<ClatCall>
    ghost var queries: nat
    ghost var found: seq<Found>
    ghost var slept: seq<nat>

    ghost function View(): State
      reads this
    {
      State(netId, serviceState, v6Iface, v4TunIface, tryStopDiscovery, discoveryCycleMs, discoveryIter,
            nat64PrefixFromDns, queued, ready, asleep, calls, queries, found, slept)
    }

    constructor (netId: int, v6Iface: string)
      ensures View() == Init(netId, v6Iface)
    {
      this.netId := netId;
      this.v6Iface := v6Iface;
      v4TunIface := CLAT_PREFIX + v6Iface;
      tryStopDiscovery := false;
      discoveryCycleMs := INITIAL_DISCOVERY_CYCLE_MS;
      discoveryIter := 1;
      nat64PrefixFromDns := "";
      serviceState := Idle;
      queued, ready, asleep := [], 0, 0;
      calls, queries, found, slept := [], 0, [], [];
    }

    method RenameV6Iface(name: string)
      modifies this
      ensures View() == Next(old(View()), RenameIface(name))
    {
      if serviceState == Idle {
        v6Iface := name;
        v4TunIface := CLAT_PREFIX + name;
      }
    }

    method UpdateService(flag: UpdateFlag)
      modifies this`queued
      ensures queued == old(queued) + [flag]
      ensures View() == Next(old(View()), Submit(flag))
    {
      queued := queued + [flag];
    }

    // The serial queue executes its oldest update.
    method RunQueued()
      modifies this
      ensures View() == Next(old(View()), RunQueue)
    {
      if queued != [] {
        var flag := queued[0];
        queued := queued[1..];
        UpdateState(flag);
      }
    }

    method UpdateState(flag: UpdateFlag)
      modifies this
      ensures View() == UpdateServiceState(old(View()), flag)
    {
      match serviceState {
        case Idle =>
          if flag == Continue {
            StartPrefixDiscovery();
            serviceState := Discovering;
          }
        case Discovering =>
          if flag == Stop {
            StopPrefixDiscovery();
            serviceState := Idle;
          }
          if flag == Continue && nat64PrefixFromDns != "" {
            StartService();
            serviceState := Running;
          }
        case Running =>
          if flag == Stop {
            StopService();
            serviceState := Idle;
          }
      }
    }

    method StartPrefixDiscovery()
      modifies this`ready
      ensures ready == old(ready) + 1
    {
      ready := ready + 1;
    }

    method StopPrefixDiscovery()
      modifies this`tryStopDiscovery
      ensures tryStopDiscovery
    {
      tryStopDiscovery := true;
    }

    method StartService()
      modifies this`calls
      ensures calls == if old(serviceState) == Running then old(calls)
                       else old(calls) + [StartClat(v6Iface, netId, nat64PrefixFromDns)]
    {
      if serviceState == Running {
        return;
      }
      calls := calls + [StartClat(v6Iface, netId, nat64PrefixFromDns)];
    }

    method StopService()
      modifies this`calls, this`nat64PrefixFromDns
      ensures calls == old(calls) + [StopClat(v6Iface)] && nat64PrefixFromDns == ""
    {
      calls := calls + [StopClat(v6Iface)];
      nat64PrefixFromDns := "";
    }

    // One DNS64 query; answer is what the server says.
    method GetPrefixFromDns64(answer: Answer) returns (ok: bool)
      modifies this`queries, this`found, this`nat64PrefixFromDns
      ensures ok == answer.Resolved? && queries == old(queries) + 1
      ensures nat64PrefixFromDns == if ok then answer.prefix else old(nat64PrefixFromDns)
      ensures found == if ok then old(found) + [Found(answer.prefix, |calls|)] else old(found)
    {
      queries := queries + 1;
      ok := answer.Resolved?;
      if ok {
        nat64PrefixFromDns := answer.prefix;
        found := found + [Found(answer.prefix, |calls|)];
      }
    }

    // A ready discovery task runs until it ends or goes to sleep.
    method DiscoverPrefixUntilSleep(answer: Answer)
      requires ready > 0
      modifies this
      ensures View() == DiscoverPrefix(old(View()), answer)
    {
      ready := ready - 1;
      if tryStopDiscovery {
        tryStopDiscovery, discoveryCycleMs, discoveryIter := false, INITIAL_DISCOVERY_CYCLE_MS, 1;
      } else {
        QueryOrSleep(answer);
      }
    }

    method ReportPrefix()
      modifies this`discoveryCycleMs, this`discoveryIter, this`queued
      ensures discoveryCycleMs == INITIAL_DISCOVERY_CYCLE_MS && discoveryIter == 1
      ensures queued == old(queued) + [Continue]
    {
      hide Next;
      discoveryCycleMs, discoveryIter := INITIAL_DISCOVERY_CYCLE_MS, 1;
      UpdateService(Continue);
    }

    method QueryOrSleep(answer: Answer)
      modifies this
      ensures View() == Query(old(View()), answer)
    {
      var ok := GetPrefixFromDns64(answer);
      if ok {
        ReportPrefix();
      } else if discoveryCycleMs <= MAX_DISCOVERY_CYCLE_MS {
        asleep, slept := asleep + 1, slept + [discoveryCycleMs];
      }
    }

    // A sleeping discovery task wakes up and resubmits itself.
    method DiscoverPrefixAfterSleep()
      requires asleep > 0
      modifies this
      ensures View() == WakeUp(old(View()))
    {
      asleep := asleep - 1;
      discoveryIter := (discoveryIter + 1) % 256;
      discoveryCycleMs := (discoveryCycleMs * DISCOVERY_CYCLE_MULTIPLIER) % TWO_32;
      ready := ready + 1;
    }
  }
}
