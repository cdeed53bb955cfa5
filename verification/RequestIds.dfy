/**
  How the ids of network requests are allocated: a shared atomic counter is fetched and incremented
  in one step; checking it against the limit and resetting it are two more steps, between which other
  allocations may run.  A run interleaves any number of allocations.
*/
module RequestIds {
  import opened Powers

  const MIN_REQUEST_ID: nat := 1
  const MAX_REQUEST_ID: nat := 0x7FFF_FFFF
  const TWO_31: nat := 0x8000_0000

  datatype Pc = Fetch | Check | Reset | Done

  // The 32-bit counter, where each allocation stands, and the ids handed out, in order.
  datatype Ids = Ids(next: nat, allocations: seq<Pc>, issued: seq<nat>)

  const START := Ids(MIN_REQUEST_ID, [], [])

  datatype Event = Begin | Advance(i: nat)

  function Next(s: Ids, e: Event): Ids {
    match e
    case Begin => s.(allocations := s.allocations + [Fetch])
    case Advance(i) =>
      if i >= |s.allocations| then s
      else
        match s.allocations[i]
        case Fetch => Ids((s.next + 1) % TWO_32, s.allocations[i := Check], s.issued + [s.next])
        case Check => s.(allocations := s.allocations[i := if s.next > MAX_REQUEST_ID then Reset else Done])
        case Reset => s.(next := MIN_REQUEST_ID, allocations := s.allocations[i := Done])
        case Done => s
  }

  function Run(s: Ids, es: seq<Event>): Ids
    decreases |es|
  {
    if es == [] then s else Run(Next(s, es[0]), es[1..])
  }

  // ---------------------------------------------------------------- overlapping allocations

  function IsPending(pc: Pc): nat { if pc == Check || pc == Reset then 1 else 0 }

  // Allocations that have taken their id but not yet finished.
  function Pending(pcs: seq<Pc>): nat {
    if pcs == [] then 0 else Pending(pcs[..|pcs| - 1]) + IsPending(pcs[|pcs| - 1])
  }

  // No more than k are pending at any point of the run.
  ghost predicate PendingAtMost(s: Ids, es: seq<Event>, k: nat)
    decreases |es|
  {
    Pending(s.allocations) <= k && (es != [] ==> PendingAtMost(Next(s, es[0]), es[1..], k))
  }

  lemma {:induction false} PendingUpdate(pcs: seq<Pc>, i: nat, pc: Pc)
    requires i < |pcs|
    ensures Pending(pcs[i := pc]) == Pending(pcs) - IsPending(pcs[i]) + IsPending(pc)
    ensures IsPending(pcs[i]) <= Pending(pcs)
    decreases |pcs|
  {
    var n := |pcs| - 1;
    if i < n {
      assert pcs[i := pc][..n] == pcs[..n][i := pc];
      PendingUpdate(pcs[..n], i, pc);
    } else {
      assert pcs[i := pc][..n] == pcs[..n];
    }
  }

  lemma PendingAppend(pcs: seq<Pc>, pc: Pc)
    ensures Pending(pcs + [pc]) == Pending(pcs) + IsPending(pc)
  {
    assert (pcs + [pc])[..|pcs|] == pcs;
  }

  // How one step changes the number of pending allocations.
  lemma PendingStep(s: Ids, e: Event)
    ensures var n, n' := Pending(s.allocations), Pending(Next(s, e).allocations);
            match e
            case Begin => n' == n
            case Advance(i) =>
              i < |s.allocations| ==>
                && n' == n - IsPending(s.allocations[i]) + IsPending(Next(s, e).allocations[i])
                && IsPending(s.allocations[i]) <= n
  {
    match e
    case Begin => PendingAppend(s.allocations, Fetch);
    case Advance(i) =>
      if i < |s.allocations| {
        PendingUpdate(s.allocations, i, Next(s, e).allocations[i]);
        assert s.allocations[i := s.allocations[i]] == s.allocations;
      }
  }

  lemma {:induction false} PendingWeaken(s: Ids, es: seq<Event>, j: nat, k: nat)
    requires j <= k && PendingAtMost(s, es, j)
    ensures PendingAtMost(s, es, k)
    decreases |es|
  {
    if es != [] { PendingWeaken(Next(s, es[0]), es[1..], j, k); }
  }

  // ---------------------------------------------------------------- one allocation after the other

  // The n-th id, counting from 0, when no two allocations overlap.
  function IdAt(n: nat): nat {
    if n == 0 then MIN_REQUEST_ID
    else if IdAt(n - 1) + 1 > MAX_REQUEST_ID then MIN_REQUEST_ID else IdAt(n - 1) + 1
  }

  lemma {:induction false} IdsCycle(n: nat)
    ensures IdAt(n) == MIN_REQUEST_ID + n % MAX_REQUEST_ID
    decreases n
  {
    if n > 0 { IdsCycle(n - 1); }
  }

  ghost predicate Serial(s: Ids) {
    var n := |s.issued|;
    && (forall j :: 0 <= j < n ==> s.issued[j] == IdAt(j))
    && (Pending(s.allocations) == 0 ==> s.next == IdAt(n))
    && (Pending(s.allocations) > 0 ==> n > 0 && s.next == IdAt(n - 1) + 1)
    && (forall i :: 0 <= i < |s.allocations| && s.allocations[i] == Reset ==> s.next > MAX_REQUEST_ID)
  }

  lemma IdNext(n: nat)
    ensures MIN_REQUEST_ID <= IdAt(n) <= MAX_REQUEST_ID
    ensures IdAt(n + 1) == if IdAt(n) == MAX_REQUEST_ID then MIN_REQUEST_ID else IdAt(n) + 1
    ensures IdAt(0) == MIN_REQUEST_ID
  {
    IdsCycle(n);
  }

  lemma NoneResets(pcs: seq<Pc>, i: nat)
    requires Pending(pcs) == 0 && i < |pcs|
    ensures pcs[i] != Reset
  {
    PendingUpdate(pcs, i, Done);
  }

  lemma SerialStep(s: Ids, e: Event)
    requires Serial(s) && Pending(s.allocations) <= 1 && Pending(Next(s, e).allocations) <= 1
    ensures Serial(Next(s, e))
  {
    hide Pending, IdAt;
    PendingStep(s, e);
    var n := |s.issued|;
    IdNext(n);
    if n > 0 { IdNext(n - 1); }
    var s' := Next(s, e);
    if Pending(s.allocations) == 0 {
      forall i | 0 <= i < |s.allocations| ensures s.allocations[i] != Reset { NoneResets(s.allocations, i); }
    }
    if Pending(s'.allocations) == 0 {
      forall i | 0 <= i < |s'.allocations| ensures s'.allocations[i] != Reset { NoneResets(s'.allocations, i); }
    }
  }

  lemma {:induction false} SerialRun(s: Ids, es: seq<Event>)
    requires Serial(s) && PendingAtMost(s, es, 1)
    ensures Serial(Run(s, es))
    decreases |es|
  {
    if es != [] {
      assert PendingAtMost(Next(s, es[0]), es[1..], 1);
      SerialStep(s, es[0]);
      SerialRun(Next(s, es[0]), es[1..]);
    }
  }

  // In every run without overlap the j-th id handed out is 1 + j mod 0x7FFFFFFF.
  lemma SerialIds(es: seq<Event>, j: nat)
    requires PendingAtMost(START, es, 1) && j < |Run(START, es).issued|
    ensures Run(START, es).issued[j] == 1 + j % 0x7FFF_FFFF
  {
    SerialRun(START, es);
    IdsCycle(j);
  }

  // ---------------------------------------------------------------- reachable states

  // Some run from s to t never has more than k allocations pending.
  ghost predicate Reaches(s: Ids, t: Ids, k: nat) {
    exists es :: PendingAtMost(s, es, k) && Run(s, es) == t
  }

  lemma {:induction false} RunsJoin(s: Ids, es: seq<Event>, more: seq<Event>, k: nat)
    requires PendingAtMost(s, es, k) && PendingAtMost(Run(s, es), more, k)
    ensures PendingAtMost(s, es + more, k) && Run(s, es + more) == Run(Run(s, es), more)
    decreases |es|
  {
    if es == [] {
      assert es + more == more;
    } else {
      RunsJoin(Next(s, es[0]), es[1..], more, k);
      assert (es + more)[1..] == es[1..] + more;
    }
  }

  lemma ReachesSelf(s: Ids, k: nat)
    requires Pending(s.allocations) <= k
    ensures Reaches(s, s, k)
  {
    assert PendingAtMost(s, [], k) && Run(s, []) == s;
  }

  lemma ReachesNext(s: Ids, t: Ids, e: Event, k: nat)
    requires Reaches(s, t, k) && Pending(Next(t, e).allocations) <= k
    ensures Reaches(s, Next(t, e), k)
  {
    var es :| PendingAtMost(s, es, k) && Run(s, es) == t;
    PendingKept(s, es, k);
    assert [e][1..] == [];
    assert PendingAtMost(Next(t, e), [], k);
    assert PendingAtMost(t, [e], k) && Run(t, [e]) == Next(t, e);
    RunsJoin(s, es, [e], k);
  }

  lemma {:induction false} PendingKept(s: Ids, es: seq<Event>, k: nat)
    requires PendingAtMost(s, es, k)
    ensures Pending(Run(s, es).allocations) <= k
    decreases |es|
  {
    if es != [] { PendingKept(Next(s, es[0]), es[1..], k); }
  }

  // A new allocation takes its id.
  lemma Take(s: Ids, t: Ids, k: nat) returns (u: Ids)
    requires Reaches(s, t, k) && Pending(t.allocations) < k
    ensures Reaches(s, u, k)
    ensures u == Ids((t.next + 1) % TWO_32, t.allocations + [Check], t.issued + [t.next])
    ensures Pending(u.allocations) == Pending(t.allocations) + 1
  {
    var begun := Next(t, Begin);
    u := Next(begun, Advance(|t.allocations|));
    PendingStep(t, Begin);
    PendingStep(begun, Advance(|t.allocations|));
    ReachesNext(s, t, Begin, k);
    ReachesNext(s, begun, Advance(|t.allocations|), k);
  }

  // A pending allocation goes one step on.
  lemma Proceed(s: Ids, t: Ids, i: nat, k: nat) returns (u: Ids)
    requires Reaches(s, t, k) && Pending(t.allocations) <= k
    requires i < |t.allocations| && IsPending(t.allocations[i]) == 1
    ensures u == Next(t, Advance(i)) && Reaches(s, u, k)
    ensures Pending(u.allocations) == Pending(t.allocations) - 1 + IsPending(u.allocations[i])
  {
    u := Next(t, Advance(i));
    PendingStep(t, Advance(i));
    ReachesNext(s, t, Advance(i), k);
  }

  // It finds the counter past the limit.
  lemma PassLimit(s: Ids, t: Ids, i: nat, k: nat) returns (u: Ids)
    requires Reaches(s, t, k) && Pending(t.allocations) <= k
    requires i < |t.allocations| && t.allocations[i] == Check && t.next > MAX_REQUEST_ID
    ensures u == t.(allocations := t.allocations[i := Reset]) && Reaches(s, u, k)
    ensures Pending(u.allocations) == Pending(t.allocations)
  {
    hide Reaches, Pending;
    u := Proceed(s, t, i, k);
  }

  lemma ResetCounter(s: Ids, t: Ids, i: nat, k: nat) returns (u: Ids)
    requires Reaches(s, t, k) && Pending(t.allocations) <= k
    requires i < |t.allocations| && t.allocations[i] == Reset
    ensures u == t.(next := MIN_REQUEST_ID, allocations := t.allocations[i := Done]) && Reaches(s, u, k)
    ensures Pending(u.allocations) == Pending(t.allocations) - 1
  {
    hide Reaches, Pending;
    u := Proceed(s, t, i, k);
  }

  // One whole allocation below the limit.
  lemma Allocate(s: Ids, t: Ids, k: nat) returns (u: Ids)
    requires Reaches(s, t, k) && Pending(t.allocations) == 0 && k >= 1 && t.next < MAX_REQUEST_ID
    ensures Reaches(s, u, k) && Pending(u.allocations) == 0
    ensures u.next == t.next + 1 && u.issued == t.issued + [t.next]
  {
    hide Reaches, Pending;
    var taken := Take(s, t, k);
    u := Proceed(s, taken, |t.allocations|, k);
  }

  // One allocation after the other brings the counter to any value up to the limit.
  lemma {:induction false} Climb(n: nat, k: nat) returns (t: Ids)
    requires n < MAX_REQUEST_ID && k >= 1
    ensures Reaches(START, t, k) && Pending(t.allocations) == 0
    ensures t.next == n + 1 && |t.issued| == n
    decreases n
  {
    hide Reaches;
    if n == 0 {
      t := START;
      ReachesSelf(START, k);
    } else {
      var s := Climb(n - 1, k);
      t := Allocate(START, s, k);
    }
  }

  // Two allocations overlap at the limit and both see it passed: when one has reset the counter the
  // other, the last, has still to do so.
  lemma {:induction false} OverlapAtLimit(s: Ids, t: Ids) returns (u: Ids)
    requires Reaches(s, t, 2) && Pending(t.allocations) == 0 && t.next == MAX_REQUEST_ID
    ensures Reaches(s, u, 2) && Pending(u.allocations) == 1
    ensures u.next == MIN_REQUEST_ID && |u.issued| == |t.issued| + 2
    ensures u.allocations != [] && u.allocations[|u.allocations| - 1] == Reset
  {
    hide Reaches, Pending, Next;
    var t1 := Take(s, t, 2);
    assert t1.next == MAX_REQUEST_ID + 1;
    var t2 := Take(s, t1, 2);
    assert t2.next == MAX_REQUEST_ID + 2;
    var n := |t.allocations|;
    var t3 := PassLimit(s, t2, n, 2);
    var t4 := PassLimit(s, t3, n + 1, 2);
    u := ResetCounter(s, t4, n, 2);
  }

  // The last reset comes after the next allocation: the id 1 is handed out twice in a row.
  lemma {:induction false} ResetTwice(s: Ids, t: Ids) returns (u: Ids)
    requires Reaches(s, t, 2) && Pending(t.allocations) == 1 && t.next == MIN_REQUEST_ID
    requires t.allocations != [] && t.allocations[|t.allocations| - 1] == Reset
    ensures Reaches(s, u, 2) && u.issued == t.issued + [MIN_REQUEST_ID, MIN_REQUEST_ID]
  {
    hide Reaches, Pending, Next;
    var t1 := Take(s, t, 2);
    var t2 := ResetCounter(s, t1, |t.allocations| - 1, 2);
    u := Take(s, t2, 2);
  }

  lemma DuplicateReachable() returns (t: Ids)
    ensures Reaches(START, t, 2)
    ensures |t.issued| == 0x8000_0002 && t.issued[0x8000_0000] == t.issued[0x8000_0001] == 1
  {
    hide Reaches, Pending, Next;
    var s := Climb(MAX_REQUEST_ID - 1, 2);
    var u := OverlapAtLimit(START, s);
    t := ResetTwice(START, u);
  }

  // ---------------------------------------------------------------- when ids are unique

  // The ids handed out in a run with at most k allocations pending differ whenever fewer than
  // 0x7FFFFFFF allocations lie between them.
  ghost predicate Unique(k: nat) {
    forall es, i, j :: PendingAtMost(START, es, k) && 0 <= i < j < |Run(START, es).issued|
                       && j - i < 0x7FFF_FFFF
                       ==> Run(START, es).issued[i] != Run(START, es).issued[j]
  }

  lemma DistinctResidues(i: nat, j: nat)
    requires i < j && j - i < MAX_REQUEST_ID
    ensures i % MAX_REQUEST_ID != j % MAX_REQUEST_ID
  {
  }

  lemma SerialUnique()
    ensures Unique(1)
  {
    forall es, i, j | PendingAtMost(START, es, 1) && 0 <= i < j < |Run(START, es).issued|
                      && j - i < MAX_REQUEST_ID
      ensures Run(START, es).issued[i] != Run(START, es).issued[j]
    {
      SerialIds(es, i);
      SerialIds(es, j);
      DistinctResidues(i, j);
    }
  }

  // That holds exactly when no two allocations overlap.
  lemma UniqueIff(k: nat)
    ensures Unique(k) <==> k <= 1
  {
    if k <= 1 {
      SerialUnique();
      forall es | PendingAtMost(START, es, k) ensures PendingAtMost(START, es, 1) {
        PendingWeaken(START, es, k, 1);
      }
    } else {
      var t := DuplicateReachable();
      var es :| PendingAtMost(START, es, 2) && Run(START, es) == t;
      PendingWeaken(START, es, 2, k);
    }
  }

  // ---------------------------------------------------------------- when ids are positive

  ghost predicate Positive(k: nat) {
    forall es, j :: PendingAtMost(START, es, k) && 0 <= j < |Run(START, es).issued|
                    ==> Run(START, es).issued[j] >= 1
  }

  // With k pending allocations the counter runs at most k past the limit.
  ghost predicate InRange(s: Ids, k: nat) {
    && MIN_REQUEST_ID <= s.next <= MAX_REQUEST_ID + Pending(s.allocations)
    && forall j :: 0 <= j < |s.issued| ==> MIN_REQUEST_ID <= s.issued[j] < MAX_REQUEST_ID + k
  }

  lemma InRangeStep(s: Ids, e: Event, k: nat)
    requires InRange(s, k) && k <= TWO_31
    requires Pending(s.allocations) <= k && Pending(Next(s, e).allocations) <= k
    ensures InRange(Next(s, e), k)
  {
    PendingStep(s, e);
  }

  lemma {:induction false} InRangeRun(s: Ids, es: seq<Event>, k: nat)
    requires InRange(s, k) && k <= TWO_31 && PendingAtMost(s, es, k)
    ensures InRange(Run(s, es), k)
    decreases |es|
  {
    if es != [] {
      assert PendingAtMost(Next(s, es[0]), es[1..], k);
      InRangeStep(s, es[0], k);
      InRangeRun(Next(s, es[0]), es[1..], k);
    }
  }

  lemma IdRange(es: seq<Event>, k: nat, j: nat)
    requires PendingAtMost(START, es, k) && k <= TWO_31 && j < |Run(START, es).issued|
    ensures 1 <= Run(START, es).issued[j] < 0x7FFF_FFFF + k
  {
    InRangeRun(START, es, k);
  }

  // m allocations in a row take their ids before any of them checks the counter.
  lemma {:induction false} TakeAll(s: Ids, t: Ids, m: nat, k: nat) returns (u: Ids)
    requires Reaches(s, t, k) && Pending(t.allocations) + m <= k && t.next < TWO_32 && t.next + m <= TWO_32
    ensures Reaches(s, u, k) && Pending(u.allocations) == Pending(t.allocations) + m
    ensures u.next == (t.next + m) % TWO_32
    ensures m > 0 ==> u.allocations != [] && u.allocations[|u.allocations| - 1] == Check
    ensures m == 0 ==> u == t
    decreases m
  {
    hide Reaches, Pending;
    if m == 0 {
      u := t;
    } else {
      var v := TakeAll(s, t, m - 1, k);
      u := Take(s, v, k);
    }
  }

  // 2^31 + 1 allocations that overlap at the limit wrap the counter round, and 0 is handed out.
  lemma {:induction false} ZeroReachable() returns (t: Ids)
    ensures Reaches(START, t, TWO_31 + 1)
    ensures |t.issued| > 0 && t.issued[|t.issued| - 1] == 0
  {
    var k := TWO_31 + 1;
    var s := Climb(MAX_REQUEST_ID - 1, k);
    hide Reaches, Pending;
    var t1 := TakeAll(START, s, k, k);
    var t2 := Proceed(START, t1, |t1.allocations| - 1, k);
    t := Take(START, t2, k);
  }

  // Every id handed out is positive exactly when at most 2^31 allocations overlap.
  lemma PositiveIff(k: nat)
    ensures Positive(k) <==> k <= 0x8000_0000
  {
    if k <= TWO_31 {
      forall es, j | PendingAtMost(START, es, k) && 0 <= j < |Run(START, es).issued|
        ensures Run(START, es).issued[j] >= MIN_REQUEST_ID
      {
        IdRange(es, k, j);
      }
    } else {
      var t := ZeroReachable();
      var es :| PendingAtMost(START, es, TWO_31 + 1) && Run(START, es) == t;
      PendingWeaken(START, es, TWO_31 + 1, k);
    }
  }
}
