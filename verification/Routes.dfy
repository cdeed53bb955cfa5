/**
  Bringing the routing table of a network from an old route list to a new one: the lists are
  compared, then routes without a gateway are added, then routes with one, then stale routes are
  removed.  The routing table is a set of keys; a key is what the daemon is told about a route.
*/
module Routes {
  import opened AddressMask
  import opened Options
  import Powers

  const RTN_UNICAST := 1
  const RTN_UNREACHABLE := 7
  const RTN_THROW := 9

  datatype INetAddr = INetAddr(kind: int, family: int, prefixLen: nat, address: string, netMask: string,
                               hostName: string, port: int)
  datatype Route = Route(iface: string, destination: INetAddr, gateway: INetAddr, rtnType: int, mtu: int,
                         hasGateway: bool, isExcluded: bool)

  // Route equality as the lists are compared: not the type, not the MTU, not the gateway flag.
  predicate Same(a: Route, b: Route) {
    a.iface == b.iface && a.destination == b.destination && a.gateway == b.gateway && a.isExcluded == b.isExcluded
  }

  // ---------------------------------------------------------------- one route

  datatype Key = Key(iface: string, dest: Address, prefixLen: nat, nextHop: string)

  function NextHop(r: Route): string {
    if r.rtnType == RTN_UNICAST then (if r.hasGateway then r.gateway.address else "")
    else if r.rtnType == RTN_UNREACHABLE then "unreachable"
    else if r.rtnType == RTN_THROW then "throw"
    else ""
  }

  // What ModifyRoute asks for, given how textual addresses parse: nothing at all when the
  // destination cannot be masked.
  function RouteKey(parse: string -> Option<Address>, r: Route): Option<Key> {
    match parse(r.destination.address)
    case None => None
    case Some(addr) =>
      match MaskSpec(addr, r.destination.prefixLen)
      case None => None
      case Some(dest) => Some(Key(r.iface, dest, r.destination.prefixLen, NextHop(r)))
  }

  datatype Op = Add(route: Route) | Remove(route: Route)

  function Apply<K>(key: Route -> Option<K>, table: set<K>, op: Op): set<K> {
    match key(op.route)
    case None => table
    case Some(k) => if op.Add? then table + {k} else table - {k}
  }

  function ApplyAll<K>(key: Route -> Option<K>, table: set<K>, ops: seq<Op>): set<K> {
    if ops == [] then table else Apply(key, ApplyAll(key, table, ops[..|ops| - 1]), ops[|ops| - 1])
  }

  // A route is passed on iff its destination parses as an address of the family its prefix length
  // is taken for; an IPv6 route with a prefix of 32 bits or less, ::/0 included, never is.
  lemma RoutePassedOnIff(parse: string -> Option<Address>, r: Route)
    ensures var addr := parse(r.destination.address);
            RouteKey(parse, r).Some? <==>
            addr.Some? && (addr.value.family == Inet6 <==> r.destination.prefixLen > 32)
  {
  }

  // ---------------------------------------------------------------- the comparison

  predicate Matched(r: Route, list: seq<Route>) { exists i :: 0 <= i < |list| && Same(list[i], r) }

  // The first match, as a linear search finds it.
  function FirstMatch(r: Route, list: seq<Route>): (m: Option<Route>)
    ensures m.Some? <==> Matched(r, list)
    ensures m.Some? ==> m.value in list && Same(m.value, r)
  {
    if list == [] then None
    else if Same(list[0], r) then Some(list[0])
    else
      assert Matched(r, list) ==> Matched(r, list[1..]) by {
        if Matched(r, list) {
          var i :| 0 <= i < |list| && Same(list[i], r);
          assert list[1..][i - 1] == list[i];
        }
      }
      FirstMatch(r, list[1..])
  }

  // The routes of xs that have no match in ys.
  function Unmatched(xs: seq<Route>, ys: seq<Route>): seq<Route> {
    if xs == [] then []
    else Unmatched(xs[..|xs| - 1], ys) + (if Matched(xs[|xs| - 1], ys) then [] else [xs[|xs| - 1]])
  }

  predicate Changed(r: Route, m: Route) { r.rtnType != m.rtnType || r.mtu != m.mtu }

  // The matches in newList that differ from the old route in type or MTU.
  function Updated(oldList: seq<Route>, newList: seq<Route>): seq<Route> {
    if oldList == [] then []
    else
      var r := oldList[|oldList| - 1];
      var m := FirstMatch(r, newList);
      Updated(oldList[..|oldList| - 1], newList) + (if m.Some? && Changed(r, m.value) then [m.value] else [])
  }

  // The routes of xs that have (do not have) a gateway, as operations.
  function Adds(xs: seq<Route>, hasGateway: bool): seq<Op> {
    if xs == [] then []
    else Adds(xs[..|xs| - 1], hasGateway)
         + (if xs[|xs| - 1].hasGateway == hasGateway then [Add(xs[|xs| - 1])] else [])
  }

  function Removes(xs: seq<Route>): seq<Op> {
    if xs == [] then [] else Removes(xs[..|xs| - 1]) + [Remove(xs[|xs| - 1])]
  }

  function Plan(newList: seq<Route>, oldList: seq<Route>): seq<Op> {
    var added := Unmatched(newList, oldList);
    Adds(added, false) + Adds(added, true) + Removes(Unmatched(oldList, newList))
  }

  // The first half of UpdateRoutes: what to add, what changed, what to remove.
  method CompareRoutes(newList: seq<Route>, oldList: seq<Route>)
    returns (added: seq<Route>, updated: seq<Route>, removed: seq<Route>)
    ensures added == Unmatched(newList, oldList) && removed == Unmatched(oldList, newList)
    ensures updated == Updated(oldList, newList)
  {
    added, updated, removed := [], [], [];
    for i := 0 to |oldList|
      invariant removed == Unmatched(oldList[..i], newList) && updated == Updated(oldList[..i], newList)
    {
      var r := oldList[i];
      var m := FirstMatch(r, newList);
      assert oldList[..i + 1][..i] == oldList[..i];
      if m.None? {
        removed := removed + [r];
      } else if r.rtnType != m.value.rtnType || r.mtu != m.value.mtu {
        updated := updated + [m.value];
      }
    }
    for i := 0 to |newList|
      invariant added == Unmatched(newList[..i], oldList)
    {
      assert newList[..i + 1][..i] == newList[..i];
      if FirstMatch(newList[i], oldList).None? {
        added := added + [newList[i]];
      }
    }
    assert oldList[..|oldList|] == oldList && newList[..|newList|] == newList;
  }

  // The operations issued, in order, and the flag returned.  The results of the operations are
  // not looked at.
  method UpdateRoutes(newList: seq<Route>, oldList: seq<Route>) returns (ret: int, ops: seq<Op>)
    ensures ops == Plan(newList, oldList)
    ensures ret == if Unmatched(newList, oldList) == [] && Updated(oldList, newList) == []
                      && Unmatched(oldList, newList) == [] then 0 else 1
  {
    hide Unmatched, Updated;
    var added, updated, removed := CompareRoutes(newList, oldList);
    ops := [];
    for i := 0 to |added|
      invariant ops == Adds(added[..i], false)
    {
      assert added[..i + 1][..i] == added[..i];
      if !added[i].hasGateway {
        ops := ops + [Add(added[i])];
      }
    }
    assert added[..|added|] == added;
    ghost var first := ops;
    for i := 0 to |added|
      invariant ops == first + Adds(added[..i], true)
    {
      assert added[..i + 1][..i] == added[..i];
      if added[i].hasGateway {
        ops := ops + [Add(added[i])];
      }
    }
    ghost var second := ops;
    for i := 0 to |removed|
      invariant ops == second + Removes(removed[..i])
    {
      assert removed[..i + 1][..i] == removed[..i];
      ops := ops + [Remove(removed[i])];
    }
    assert removed[..|removed|] == removed;
    ret := if added != [] || updated != [] || removed != [] then 1 else 0;
  }

  // ---------------------------------------------------------------- membership

  lemma {:induction false} UnmatchedMembers(xs: seq<Route>, ys: seq<Route>)
    ensures forall r :: r in Unmatched(xs, ys) <==> r in xs && !Matched(r, ys)
    decreases |xs|
  {
    if xs != [] {
      UnmatchedMembers(xs[..|xs| - 1], ys);
      assert xs == xs[..|xs| - 1] + [xs[|xs| - 1]];
    }
  }

  lemma {:induction false} AddsMembers(xs: seq<Route>, hasGateway: bool)
    ensures forall op :: op in Adds(xs, hasGateway) <==>
              op.Add? && op.route in xs && op.route.hasGateway == hasGateway
    decreases |xs|
  {
    if xs != [] {
      AddsMembers(xs[..|xs| - 1], hasGateway);
      assert xs == xs[..|xs| - 1] + [xs[|xs| - 1]];
    }
  }

  lemma {:induction false} RemovesMembers(xs: seq<Route>)
    ensures forall op :: op in Removes(xs) <==> op.Remove? && op.route in xs
    decreases |xs|
  {
    if xs != [] {
      RemovesMembers(xs[..|xs| - 1]);
      assert xs == xs[..|xs| - 1] + [xs[|xs| - 1]];
    }
  }

  // Gateway-less adds come first, then adds through a gateway, then removals; and every unmatched
  // route is in there.
  function Phase(op: Op): nat {
    if op.Remove? then 2 else if op.route.hasGateway then 1 else 0
  }

  lemma PlanOrder(newList: seq<Route>, oldList: seq<Route>)
    ensures var ops := Plan(newList, oldList);
            && (forall i, j :: 0 <= i < j < |ops| ==> Phase(ops[i]) <= Phase(ops[j]))
            && (forall op :: op in ops <==>
                  if op.Add? then op.route in newList && !Matched(op.route, oldList)
                  else op.route in oldList && !Matched(op.route, newList))
  {
    var added, removed := Unmatched(newList, oldList), Unmatched(oldList, newList);
    UnmatchedMembers(newList, oldList);
    UnmatchedMembers(oldList, newList);
    AddsMembers(added, false);
    AddsMembers(added, true);
    RemovesMembers(removed);
    hide Unmatched, Adds, Removes, Matched;
    var a, b, c := Adds(added, false), Adds(added, true), Removes(removed);
    var ops := Plan(newList, oldList);
    forall i | 0 <= i < |ops|
      ensures Phase(ops[i]) == if i < |a| then 0 else if i < |a| + |b| then 1 else 2
    {
      if i < |a| { assert ops[i] in a; }
      else if i < |a| + |b| { assert ops[i] in b; }
      else { assert ops[i] in c; }
    }
  }

  lemma {:induction false} UpdatedEmptyIff(oldList: seq<Route>, newList: seq<Route>)
    ensures Updated(oldList, newList) == [] <==>
            forall r :: r in oldList && Matched(r, newList) ==> !Changed(r, FirstMatch(r, newList).value)
    decreases |oldList|
  {
    if oldList != [] {
      var front, r := oldList[..|oldList| - 1], oldList[|oldList| - 1];
      UpdatedEmptyIff(front, newList);
      assert oldList == front + [r];
    }
  }

  // Nothing is reported iff the lists agree as sets, up to route equality, and no matched route
  // has changed its type or its MTU.
  lemma UnchangedIff(newList: seq<Route>, oldList: seq<Route>)
    ensures Unmatched(newList, oldList) == [] && Updated(oldList, newList) == []
            && Unmatched(oldList, newList) == [] <==>
            (&& (forall r :: r in newList ==> Matched(r, oldList))
             && (forall r :: r in oldList ==>
                   && Matched(r, newList)
                   && var m := FirstMatch(r, newList).value; r.rtnType == m.rtnType && r.mtu == m.mtu))
  {
    UnmatchedMembers(newList, oldList);
    UnmatchedMembers(oldList, newList);
    UpdatedEmptyIff(oldList, newList);
    hide Matched, FirstMatch;
    EmptyIff(Unmatched(newList, oldList));
    EmptyIff(Unmatched(oldList, newList));
  }

  lemma EmptyIff<T>(xs: seq<T>)
    ensures xs == [] <==> forall x :: x !in xs
  {
    if xs != [] { assert xs[0] in xs; }
  }

  // ---------------------------------------------------------------- the table

  ghost function Keys<K(!new)>(key: Route -> Option<K>, routes: seq<Route>): set<K> {
    set r | r in routes && key(r).Some? :: key(r).value
  }

  lemma KeysMember<K(!new)>(key: Route -> Option<K>, routes: seq<Route>, k: K)
    ensures k in Keys(key, routes) <==> exists r :: r in routes && key(r) == Some(k)
  {
  }

  // After any first n of the operations: a key is there if it was added, or was there before and
  // has not been removed.
  lemma {:induction false} TableAfter<K(!new)>(key: Route -> Option<K>, table: set<K>, ops: seq<Op>, adds: nat)
    requires adds <= |ops|
    requires forall i :: 0 <= i < |ops| ==> (ops[i].Add? <==> i < adds)
    ensures forall k :: k in ApplyAll(key, table, ops) <==>
              && (k in table || exists i :: 0 <= i < adds && key(ops[i].route) == Some(k))
              && !(exists i :: adds <= i < |ops| && key(ops[i].route) == Some(k))
    decreases |ops|
  {
    if ops != [] {
      var n := |ops| - 1;
      var front := ops[..n];
      TableAfter(key, table, front, if adds <= n then adds else n);
      forall k
        ensures k in ApplyAll(key, table, ops) <==>
                  && (k in table || exists i :: 0 <= i < adds && key(ops[i].route) == Some(k))
                  && !(exists i :: adds <= i < |ops| && key(ops[i].route) == Some(k))
      {
        assert forall i :: 0 <= i < n ==> front[i] == ops[i];
      }
    }
  }

  // Where in the plan the removals start.
  ghost function AddCount(newList: seq<Route>, oldList: seq<Route>): nat {
    |Adds(Unmatched(newList, oldList), false)| + |Adds(Unmatched(newList, oldList), true)|
  }

  lemma PlanPrefix(newList: seq<Route>, oldList: seq<Route>)
    ensures var ops, n := Plan(newList, oldList), AddCount(newList, oldList);
            n <= |ops| && forall i :: 0 <= i < |ops| ==> (ops[i].Add? <==> i < n)
  {
    var added, removed := Unmatched(newList, oldList), Unmatched(oldList, newList);
    AddsMembers(added, false);
    AddsMembers(added, true);
    RemovesMembers(removed);
    hide Unmatched, Adds, Removes;
    var a, b, c := Adds(added, false), Adds(added, true), Removes(removed);
    var ops := Plan(newList, oldList);
    forall i | 0 <= i < |ops| ensures ops[i].Add? <==> i < |a| + |b| {
      if i < |a| { assert ops[i] in a; }
      else if i < |a| + |b| { assert ops[i] in b; }
      else { assert ops[i] in c; }
    }
  }

  // The table once all operations are through, key by key.
  lemma FinalTable<K(!new)>(key: Route -> Option<K>, table: set<K>, newList: seq<Route>, oldList: seq<Route>, k: K)
    ensures k in ApplyAll(key, table, Plan(newList, oldList)) <==>
              && (k in table || exists r :: r in newList && !Matched(r, oldList) && key(r) == Some(k))
              && !exists r :: r in oldList && !Matched(r, newList) && key(r) == Some(k)
  {
    var ops, n := Plan(newList, oldList), AddCount(newList, oldList);
    PlanPrefix(newList, oldList);
    PlanOrder(newList, oldList);
    hide Plan, AddCount, Matched, ApplyAll;
    TableAfter(key, table, ops, n);
    if r :| r in newList && !Matched(r, oldList) && key(r) == Some(k) {
      var i :| 0 <= i < |ops| && ops[i] == Add(r) by { assert Add(r) in ops; }
    }
    if r :| r in oldList && !Matched(r, newList) && key(r) == Some(k) {
      var i :| 0 <= i < |ops| && ops[i] == Remove(r) by { assert Remove(r) in ops; }
    }
    if i :| 0 <= i < n && key(ops[i].route) == Some(k) { assert ops[i] in ops; }
    if i :| n <= i < |ops| && key(ops[i].route) == Some(k) { assert ops[i] in ops; }
  }

  // No removed route has the key of a route in the new list.
  ghost predicate NoCollision<K(!new)>(key: Route -> Option<K>, newList: seq<Route>, oldList: seq<Route>) {
    forall r, s :: r in oldList && !Matched(r, newList) && s in newList && key(r).Some? ==> key(r) != key(s)
  }

  // The key of a kept old route is that of some new route, or of some removed one.
  ghost predicate KeptKeysWanted<K(!new)>(key: Route -> Option<K>, newList: seq<Route>, oldList: seq<Route>) {
    forall r :: r in oldList && Matched(r, newList) && key(r).Some? ==>
      exists s :: key(s) == key(r) && (s in newList || (s in oldList && !Matched(s, newList)))
  }

  // The key of a new route that is not added is that of some old route, or of some added one.
  ghost predicate MatchedKeysPresent<K(!new)>(key: Route -> Option<K>, newList: seq<Route>, oldList: seq<Route>) {
    forall s :: s in newList && Matched(s, oldList) && key(s).Some? ==>
      exists r :: key(r) == key(s) && (r in oldList || (r in newList && !Matched(r, oldList)))
  }

  // The keys that survive the plan.
  ghost predicate Survives<K(!new)>(key: Route -> Option<K>, rest: set<K>, newList: seq<Route>,
                                    oldList: seq<Route>, k: K)
  {
    && (k in rest || k in Keys(key, oldList)
        || exists r :: r in newList && !Matched(r, oldList) && key(r) == Some(k))
    && !exists r :: r in oldList && !Matched(r, newList) && key(r) == Some(k)
  }

  ghost predicate IsFinal<K(!new)>(key: Route -> Option<K>, rest: set<K>, newList: seq<Route>, oldList: seq<Route>,
                                   final: set<K>)
  {
    forall k :: k in final <==> Survives(key, rest, newList, oldList, k)
  }

  // When every operation succeeds, the table that held the old routes beside unrelated entries
  // holds the new routes beside these entries iff the three conditions hold.
  lemma TableIff<K(!new)>(key: Route -> Option<K>, rest: set<K>, newList: seq<Route>, oldList: seq<Route>)
    requires rest !! Keys(key, oldList) && rest !! Keys(key, newList)
    ensures ApplyAll(key, Keys(key, oldList) + rest, Plan(newList, oldList)) == Keys(key, newList) + rest <==>
            NoCollision(key, newList, oldList) && KeptKeysWanted(key, newList, oldList)
            && MatchedKeysPresent(key, newList, oldList)
  {
    hide Plan, ApplyAll, Matched;
    var final := ApplyAll(key, Keys(key, oldList) + rest, Plan(newList, oldList));
    forall k ensures k in final <==> Survives(key, rest, newList, oldList, k) {
      FinalTable(key, Keys(key, oldList) + rest, newList, oldList, k);
    }
    if final == Keys(key, newList) + rest {
      ConditionsNeeded(key, rest, newList, oldList, final);
    }
    if NoCollision(key, newList, oldList) && KeptKeysWanted(key, newList, oldList)
       && MatchedKeysPresent(key, newList, oldList) {
      ConditionsSuffice(key, rest, newList, oldList, final);
    }
  }

  lemma ConditionsNeeded<K(!new)>(key: Route -> Option<K>, rest: set<K>, newList: seq<Route>, oldList: seq<Route>,
                                  final: set<K>)
    requires rest !! Keys(key, oldList) && rest !! Keys(key, newList)
    requires IsFinal(key, rest, newList, oldList, final) && final == Keys(key, newList) + rest
    ensures NoCollision(key, newList, oldList) && KeptKeysWanted(key, newList, oldList)
    ensures MatchedKeysPresent(key, newList, oldList)
  {
    hide Matched;
    forall r, s | r in oldList && !Matched(r, newList) && s in newList && key(r).Some?
      ensures key(r) != key(s)
    {
      assert key(r).value !in final;
    }
    forall r | r in oldList && Matched(r, newList) && key(r).Some?
      ensures exists s :: key(s) == key(r) && (s in newList || (s in oldList && !Matched(s, newList)))
    {
      var k := key(r).value;
      assert k in Keys(key, oldList);
      if k in final {
        KeysMember(key, newList, k);
      }
    }
    forall s | s in newList && Matched(s, oldList) && key(s).Some?
      ensures exists r :: key(r) == key(s) && (r in oldList || (r in newList && !Matched(r, oldList)))
    {
      var k := key(s).value;
      assert k in Keys(key, newList);
      KeysMember(key, oldList, k);
    }
  }

  lemma ConditionsSuffice<K(!new)>(key: Route -> Option<K>, rest: set<K>, newList: seq<Route>, oldList: seq<Route>,
                                   final: set<K>)
    requires rest !! Keys(key, oldList) && rest !! Keys(key, newList)
    requires IsFinal(key, rest, newList, oldList, final)
    requires NoCollision(key, newList, oldList) && KeptKeysWanted(key, newList, oldList)
    requires MatchedKeysPresent(key, newList, oldList)
    ensures final == Keys(key, newList) + rest
  {
    hide Matched;
    forall k ensures k in final <==> k in Keys(key, newList) + rest {
      KeysMember(key, oldList, k);
      KeysMember(key, newList, k);
    }
  }

  // Equal routes ask for equal keys: neither their type nor their gateway flag has changed.
  ghost predicate SameKeys<K(!new)>(key: Route -> Option<K>, newList: seq<Route>, oldList: seq<Route>) {
    forall r, s :: r in oldList && s in newList && Same(r, s) ==> key(r) == key(s)
  }

  // Under that condition one is left: the table comes out right iff no removed route has the key of
  // a new one, since removals come last.
  lemma TableIffNoCollision<K(!new)>(key: Route -> Option<K>, rest: set<K>, newList: seq<Route>, oldList: seq<Route>)
    requires rest !! Keys(key, oldList) && rest !! Keys(key, newList) && SameKeys(key, newList, oldList)
    ensures ApplyAll(key, Keys(key, oldList) + rest, Plan(newList, oldList)) == Keys(key, newList) + rest <==>
            NoCollision(key, newList, oldList)
  {
    hide Plan, ApplyAll, NoCollision, Keys;
    forall r | r in oldList && Matched(r, newList) && key(r).Some?
      ensures exists s :: key(s) == key(r) && (s in newList || (s in oldList && !Matched(s, newList)))
    {
      var i :| 0 <= i < |newList| && Same(newList[i], r);
      assert newList[i] in newList && Same(r, newList[i]);
    }
    forall s | s in newList && Matched(s, oldList) && key(s).Some?
      ensures exists r :: key(r) == key(s) && (r in oldList || (r in newList && !Matched(r, oldList)))
    {
      var i :| 0 <= i < |oldList| && Same(oldList[i], s);
      assert oldList[i] in oldList;
    }
    TableIff(key, rest, newList, oldList);
  }

  // Make before break: under both conditions, after any number of operations the table still holds
  // all old routes or already holds all new ones.
  lemma MakeBeforeBreak<K(!new)>(key: Route -> Option<K>, rest: set<K>, newList: seq<Route>,
                                 oldList: seq<Route>, n: nat)
    requires SameKeys(key, newList, oldList) && NoCollision(key, newList, oldList)
    requires n <= |Plan(newList, oldList)|
    ensures var t := ApplyAll(key, Keys(key, oldList) + rest, Plan(newList, oldList)[..n]);
            Keys(key, oldList) <= t || Keys(key, newList) <= t
  {
    var ops, adds := Plan(newList, oldList), AddCount(newList, oldList);
    PlanPrefix(newList, oldList);
    PlanOrder(newList, oldList);
    hide Plan, AddCount, ApplyAll;
    var table := Keys(key, oldList) + rest;
    TableAfter(key, table, ops[..n], if n <= adds then n else adds);
    var t := ApplyAll(key, table, ops[..n]);
    if n <= adds {
      assert Keys(key, oldList) <= t;
    } else {
      forall k | k in Keys(key, newList) ensures k in t {
        var s :| s in newList && key(s) == Some(k);
        if Matched(s, oldList) {
          var i :| 0 <= i < |oldList| && Same(oldList[i], s);
          assert oldList[i] in oldList;
        } else {
          var i :| 0 <= i < |ops| && ops[i] == Add(s) by { assert Add(s) in ops; }
          assert ops[..n][i] == ops[i];
        }
        forall i | adds <= i < n ensures key(ops[..n][i].route) != Some(k) {
          assert ops[i] in ops;
        }
      }
    }
  }

  // ---------------------------------------------------------------- single routes

  lemma MatchedOne(r: Route, m: Route)
    ensures Matched(r, [m]) <==> Same(m, r)
  {
    if Same(m, r) { assert Same([m][0], r); }
  }

  // One route in place of another: nothing is asked for iff interface, destination, gateway and
  // exclusion are the same, and nothing is reported iff type and MTU are the same as well.
  lemma SingleRouteIff(a: Route, b: Route)
    ensures var same := a.iface == b.iface && a.destination == b.destination && a.gateway == b.gateway
                        && a.isExcluded == b.isExcluded;
            && (Plan([b], [a]) == [] <==> same)
            && (Unmatched([b], [a]) == [] && Updated([a], [b]) == [] && Unmatched([a], [b]) == [] <==>
                  same && a.rtnType == b.rtnType && a.mtu == b.mtu)
  {
    MatchedOne(a, b);
    MatchedOne(b, a);
    hide Plan, Unmatched, Updated, Matched, FirstMatch;
    UnchangedIff([b], [a]);
    PlanOrder([b], [a]);
    EmptyIff(Plan([b], [a]));
    assert a in [a] && b in [b];
    assert Matched(b, [a]) || Add(b) in Plan([b], [a]);
    if Matched(a, [b]) { assert FirstMatch(a, [b]).value in [b]; }
  }

  lemma TableAfterReplacing<K(!new)>(key: Route -> Option<K>, a: Route, b: Route)
    requires !Same(a, b) && key(a).Some? && key(b).Some?
    ensures ApplyAll(key, Keys(key, [a]), Plan([b], [a])) == if key(a) == key(b) then {} else {key(b).value}
  {
    MatchedOne(a, b);
    MatchedOne(b, a);
    hide Plan, ApplyAll, Matched, Keys;
    var final := ApplyAll(key, Keys(key, [a]), Plan([b], [a]));
    assert a in [a] && b in [b];
    forall k ensures k in final <==> k == key(b).value && key(a) != key(b) {
      FinalTable(key, Keys(key, [a]), [b], [a], k);
      KeysMember(key, [a], k);
    }
  }

  // A route that is added to an empty table is in it with its masked destination and, as next hop,
  // the gateway of a unicast route that has one, "unreachable" and "throw" for these types (7 and 9)
  // and nothing otherwise.
  lemma RouteInstalled(parse: string -> Option<Address>, r: Route, addr: Address)
    requires parse(r.destination.address) == Some(addr)
    requires addr.family == Inet6 <==> r.destination.prefixLen > 32
    ensures var key := (r: Route) => RouteKey(parse, r);
            var dest := Address(addr.family, Masked(addr.bytes, r.destination.prefixLen));
            var hop := if r.rtnType == 1 && r.hasGateway then r.gateway.address
                       else if r.rtnType == 7 then "unreachable" else if r.rtnType == 9 then "throw" else "";
            ApplyAll(key, {}, Plan([r], [])) == {Key(r.iface, dest, r.destination.prefixLen, hop)}
  {
    var key := (r: Route) => RouteKey(parse, r);
    assert !Matched(r, []) && r in [r] && key(r).Some?;
    var final := ApplyAll(key, {}, Plan([r], []));
    forall k ensures k in final <==> k == key(r).value { FinalTable(key, {}, [r], [], k); }
    hide Plan, ApplyAll, Masked;
  }

  // A unicast route whose gateway changes is in the table with the new gateway, and only so.
  lemma GatewayChanged(parse: string -> Option<Address>, a: Route, addr: Address, g: string)
    requires parse(a.destination.address) == Some(addr)
    requires addr.family == Inet6 <==> a.destination.prefixLen > 32
    requires a.rtnType == 1 && a.hasGateway && g != a.gateway.address
    ensures var key := (r: Route) => RouteKey(parse, r);
            var b := a.(gateway := a.gateway.(address := g));
            var dest := Address(addr.family, Masked(addr.bytes, a.destination.prefixLen));
            ApplyAll(key, Keys(key, [a]), Plan([b], [a])) == {Key(a.iface, dest, a.destination.prefixLen, g)}
  {
    var key := (r: Route) => RouteKey(parse, r);
    var b := a.(gateway := a.gateway.(address := g));
    hide Plan, ApplyAll, Masked, Keys;
    TableAfterReplacing(key, a, b);
  }

  // ---------------------------------------------------------------- when the conditions fail

  function Plain(dest: string, prefixLen: nat, rtnType: int): Route {
    var none := INetAddr(0, 0, 0, "", "", "", 0);
    Route("wlan0", INetAddr(0, 0, prefixLen, dest, "", "", 0), none, rtnType, 0, false, false)
  }

  lemma HostBitsMasked()
    ensures Masked([10, 0, 0, 5], 24) == Masked([10, 0, 0, 9], 24)
  {
    LowByteCleared(5);
    LowByteCleared(9);
    hide And, Mask;
  }

  lemma LowByteCleared(x: Byte)
    ensures And(x, Mask(0), 8) == 0
  {
    MaskByte(x, 0);
    assert Powers.Pow2(8) == 256;
    hide And, Mask;
  }

  // Two on-link routes that differ only in host bits have one key between them: replacing one by
  // the other adds the key and then removes it.
  lemma HostBitsLoseTheRoute(parse: string -> Option<Address>)
    requires parse("10.0.0.5") == Some(Address(Inet, [10, 0, 0, 5]))
    requires parse("10.0.0.9") == Some(Address(Inet, [10, 0, 0, 9]))
    ensures var key := (r: Route) => RouteKey(parse, r);
            var oldList, newList := [Plain("10.0.0.5", 24, RTN_UNICAST)], [Plain("10.0.0.9", 24, RTN_UNICAST)];
            && key(newList[0]).Some?
            && ApplyAll(key, Keys(key, oldList), Plan(newList, oldList)) == {}
  {
    var key := (r: Route) => RouteKey(parse, r);
    var a, b := Plain("10.0.0.5", 24, RTN_UNICAST), Plain("10.0.0.9", 24, RTN_UNICAST);
    HostBitsMasked();
    hide Masked;
    assert a.destination != b.destination;
    assert !Same(a, b) && !Same(b, a);
    forall k ensures k !in ApplyAll(key, Keys(key, [a]), Plan([b], [a])) {
      FinalTable(key, Keys(key, [a]), [b], [a], k);
      KeysMember(key, [a], k);
      assert a in [a] && !Matched(a, [b]);
    }
  }

  // A route whose type changes keeps its old entry: the change is reported but never applied.
  lemma TypeChangeIsNotApplied(parse: string -> Option<Address>)
    requires parse("10.0.0.0") == Some(Address(Inet, [10, 0, 0, 0]))
    ensures var key := (r: Route) => RouteKey(parse, r);
            var oldList, newList := [Plain("10.0.0.0", 24, RTN_UNICAST)], [Plain("10.0.0.0", 24, RTN_UNREACHABLE)];
            && Plan(newList, oldList) == [] && Updated(oldList, newList) != []
            && Keys(key, oldList) != Keys(key, newList)
  {
    var key := (r: Route) => RouteKey(parse, r);
    var a, b := Plain("10.0.0.0", 24, RTN_UNICAST), Plain("10.0.0.0", 24, RTN_UNREACHABLE);
    assert Same([b][0], a) && Same([a][0], b);
    assert Matched(a, [b]) && Matched(b, [a]);
    UnmatchedMembers([a], [b]);
    UnmatchedMembers([b], [a]);
    EmptyIff(Unmatched([a], [b]));
    EmptyIff(Unmatched([b], [a]));
    UpdatedEmptyIff([a], [b]);
    assert FirstMatch(a, [b]).value in [b] && a in [a];
    hide Unmatched, Updated, FirstMatch;
    assert NextHop(a) == "" && NextHop(b) == "unreachable" && |NextHop(b)| == 11;
    assert key(a).Some? && key(b).Some? && key(a) != key(b);
    KeysMember(key, [b], key(a).value);
    KeysMember(key, [a], key(a).value);
    assert a in [a];
  }
}
