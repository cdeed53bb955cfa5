/**
  Per-uid and per-interface traffic counters kept by four kernel programs.

  The programs run concurrently on many CPUs.  Each looks its key up, inserts a zero entry if
  the key is absent, looks it up again and performs two atomic adds; every one of these is a
  single indivisible step here, and a run interleaves the steps of any number of program
  instances in any order.  The tables are size-limited hash maps from which nothing is deleted.
*/
module TrafficStats {

  const APP_STATS_MAP_SIZE: nat := 5000
  const IFACE_STATS_MAP_SIZE: nat := 1000
  const TWO_64: nat := 0x1_0000_0000_0000_0000

  type Key = nat

  datatype Direction = Rx | Tx
  datatype MapId = AppUid | Iface
  datatype Stats = Stats(rxPackets: nat, rxBytes: nat, txPackets: nat, txBytes: nat)
  {
    function Packets(d: Direction): nat { if d == Rx then rxPackets else txPackets }
    function Bytes(d: Direction): nat { if d == Rx then rxBytes else txBytes }

    // The two atomic adds on 64-bit counters.
    function AddPacket(d: Direction): Stats {
      if d == Rx then this.(rxPackets := (rxPackets + 1) % TWO_64)
      else this.(txPackets := (txPackets + 1) % TWO_64)
    }
    function AddBytes(d: Direction, len: nat): Stats {
      if d == Rx then this.(rxBytes := (rxBytes + len) % TWO_64)
      else this.(txBytes := (txBytes + len) % TWO_64)
    }
  }

  const ZERO := Stats(0, 0, 0, 0)

  type Table = map<Key, Stats>

  datatype Program = UidIngress | UidEgress | IfaceIngress | IfaceEgress
  {
    function Map(): MapId { if UidIngress? || UidEgress? then AppUid else Iface }
    function Dir(): Direction { if UidIngress? || IfaceIngress? then Rx else Tx }
  }

  function MaxEntries(m: MapId): nat {
    match m
    case AppUid => APP_STATS_MAP_SIZE
    case Iface => IFACE_STATS_MAP_SIZE
  }

  // Where an instance stands in its code.  From AddPackets on it holds a pointer to its entry.
  datatype Pc = Lookup | Insert | LookupAgain | AddPackets | AddBytes | Done(counted: bool)

  // An instance of a program, started for a packet of len bytes that belongs to key.
  datatype Handler = Handler(prog: Program, key: Key, len: nat, pc: Pc)

  datatype System = System(app: Table, iface: Table, handlers: seq<Handler>)
  {
    function At(m: MapId): Table { if m == AppUid then app else iface }
    function With(m: MapId, t: Table): System {
      if m == AppUid then this.(app := t) else this.(iface := t)
    }
  }

  const EMPTY := System(map[], map[], [])

  // bpf_map_update_elem with BPF_NOEXIST: refused when the key exists or the map is full.
  function InsertNoExist(t: Table, max: nat, key: Key): Table {
    if key in t || |t| >= max then t else t[key := ZERO]
  }

  // One indivisible step of an instance: the table and the program counter after it.
  function StepOn(t: Table, max: nat, h: Handler): (Table, Pc) {
    match h.pc
    case Lookup => (t, if h.key in t then AddPackets else Insert)
    case Insert => (InsertNoExist(t, max, h.key), LookupAgain)
    case LookupAgain => (t, if h.key in t then AddPackets else Done(false))
    case AddPackets =>
      (if h.key in t then t[h.key := t[h.key].AddPacket(h.prog.Dir())] else t, AddBytes)
    case AddBytes =>
      (if h.key in t then t[h.key := t[h.key].AddBytes(h.prog.Dir(), h.len)] else t, Done(true))
    case Done(_) => (t, h.pc)
  }

  datatype Event = Arrive(prog: Program, key: Key, len: nat) | Step(i: nat)

  function Next(s: System, e: Event): System {
    match e
    case Arrive(prog, key, len) => s.(handlers := s.handlers + [Handler(prog, key, len, Lookup)])
    case Step(i) =>
      if i >= |s.handlers| then s
      else
        var h := s.handlers[i];
        var (t, pc) := StepOn(s.At(h.prog.Map()), MaxEntries(h.prog.Map()), h);
        s.With(h.prog.Map(), t).(handlers := s.handlers[i := h.(pc := pc)])
  }

  function Run(s: System, es: seq<Event>): System
    decreases |es|
  {
    if es == [] then s else Run(Next(s, es[0]), es[1..])
  }

  // ---------------------------------------------------------------- adds performed

  predicate Concerns(h: Handler, m: MapId, key: Key, d: Direction) {
    h.prog.Map() == m && h.key == key && h.prog.Dir() == d
  }

  // What instance h has added so far to the packet and byte counters of (m, key, d).
  function PacketOf(h: Handler, m: MapId, key: Key, d: Direction): nat {
    if Concerns(h, m, key, d) && (h.pc == AddBytes || h.pc == Done(true)) then 1 else 0
  }
  function BytesOf(h: Handler, m: MapId, key: Key, d: Direction): nat {
    if Concerns(h, m, key, d) && h.pc == Done(true) then h.len else 0
  }

  function PacketsAdded(hs: seq<Handler>, m: MapId, key: Key, d: Direction): nat {
    if hs == [] then 0 else PacketOf(hs[0], m, key, d) + PacketsAdded(hs[1..], m, key, d)
  }
  function BytesAdded(hs: seq<Handler>, m: MapId, key: Key, d: Direction): nat {
    if hs == [] then 0 else BytesOf(hs[0], m, key, d) + BytesAdded(hs[1..], m, key, d)
  }

  lemma {:induction false} AddedAppend(hs: seq<Handler>, h: Handler, m: MapId, key: Key, d: Direction)
    ensures PacketsAdded(hs + [h], m, key, d) == PacketsAdded(hs, m, key, d) + PacketOf(h, m, key, d)
    ensures BytesAdded(hs + [h], m, key, d) == BytesAdded(hs, m, key, d) + BytesOf(h, m, key, d)
  {
    if hs == [] {
      assert (hs + [h])[1..] == [];
    } else {
      assert (hs + [h])[1..] == hs[1..] + [h];
      AddedAppend(hs[1..], h, m, key, d);
    }
  }

  lemma {:induction false} AddedUpdate(hs: seq<Handler>, i: nat, h: Handler, m: MapId, key: Key, d: Direction)
    requires i < |hs|
    ensures PacketsAdded(hs[i := h], m, key, d)
         == PacketsAdded(hs, m, key, d) - PacketOf(hs[i], m, key, d) + PacketOf(h, m, key, d)
    ensures BytesAdded(hs[i := h], m, key, d)
         == BytesAdded(hs, m, key, d) - BytesOf(hs[i], m, key, d) + BytesOf(h, m, key, d)
  {
    if i == 0 {
      assert hs[0 := h][1..] == hs[1..];
    } else {
      assert hs[i := h][1..] == hs[1..][i - 1 := h];
      AddedUpdate(hs[1..], i - 1, h, m, key, d);
    }
  }

  // ---------------------------------------------------------------- the invariant

  function Entry(t: Table, key: Key): Stats {
    if key in t then t[key] else ZERO
  }

  // The counters of one key and direction are the adds performed, and an absent key has none.
  ghost predicate Conserved(s: System, m: MapId, key: Key, d: Direction) {
    && Entry(s.At(m), key).Packets(d) == PacketsAdded(s.handlers, m, key, d) % TWO_64
    && Entry(s.At(m), key).Bytes(d) == BytesAdded(s.handlers, m, key, d) % TWO_64
  }

  // What an instance may rely on: its pointer stays valid, and it misses its key on the second
  // look-up only when the table is full of other keys.
  ghost predicate HandlerInv(s: System, h: Handler) {
    var t := s.At(h.prog.Map());
    match h.pc
    case Lookup | Insert => true
    case LookupAgain => h.key in t || |t| == MaxEntries(h.prog.Map())
    case AddPackets | AddBytes | Done(true) => h.key in t
    case Done(false) => h.key !in t && |t| == MaxEntries(h.prog.Map())
  }

  ghost predicate Inv(s: System) {
    && (forall m: MapId :: |s.At(m)| <= MaxEntries(m))
    && (forall h :: h in s.handlers ==> HandlerInv(s, h))
    && (forall m, key, d :: Conserved(s, m, key, d))
  }

  lemma SizeAfterInsert(t: Table, key: Key, v: Stats)
    ensures |t[key := v]| == if key in t then |t| else |t| + 1
  {
    assert t[key := v].Keys == t.Keys + {key};
  }

  // A step touches no other key, never drops a key, never overfills the table, and leaves the
  // keys of a full table alone.
  lemma TableStep(t: Table, max: nat, h: Handler)
    requires |t| <= max
    ensures var t' := StepOn(t, max, h).0;
            && t.Keys <= t'.Keys && |t'| <= max
            && (|t| == max ==> t'.Keys == t.Keys && |t'| == max)
            && (forall k :: k in t' && k != h.key ==> k in t && t'[k] == t[k])
  {
    var t' := StepOn(t, max, h).0;
    if t' != t {
      SizeAfterInsert(t, h.key, t'[h.key]);
      assert t'.Keys == t.Keys + {h.key};
    }
  }

  // An insert never resets an entry that is there.
  lemma InsertKeeps(t: Table, max: nat, key: Key)
    ensures key in t ==> InsertNoExist(t, max, key) == t
    ensures key !in t && |t| < max ==> key in InsertNoExist(t, max, key)
  {
  }

  lemma StepHandlers(s: System, i: nat)
    requires Inv(s) && i < |s.handlers|
    ensures forall h :: h in Next(s, Step(i)).handlers ==> HandlerInv(Next(s, Step(i)), h)
  {
    var h := s.handlers[i];
    var m := h.prog.Map();
    var s' := Next(s, Step(i));
    TableStep(s.At(m), MaxEntries(m), h);
    assert HandlerInv(s, h);
    if h.pc == Insert {
      InsertKeeps(s.At(m), MaxEntries(m), h.key);
    }
    assert HandlerInv(s', s'.handlers[i]);
    forall g | g in s'.handlers
      ensures HandlerInv(s', g)
    {
      var j :| 0 <= j < |s'.handlers| && s'.handlers[j] == g;
      if j != i {
        assert s.handlers[j] == g && HandlerInv(s, g);
      }
    }
  }

  // A step changes an entry by exactly what the instance has added with it.
  lemma EntryStep(t: Table, max: nat, h: Handler, key: Key, d: Direction)
    requires h.pc == AddPackets || h.pc == AddBytes ==> h.key in t
    requires Entry(t, key).Packets(d) < TWO_64 && Entry(t, key).Bytes(d) < TWO_64
    ensures var (t', pc) := StepOn(t, max, h);
            var m := h.prog.Map();
            && Entry(t', key).Packets(d)
               == (Entry(t, key).Packets(d) + PacketOf(h.(pc := pc), m, key, d) - PacketOf(h, m, key, d)) % TWO_64
            && Entry(t', key).Bytes(d)
               == (Entry(t, key).Bytes(d) + BytesOf(h.(pc := pc), m, key, d) - BytesOf(h, m, key, d)) % TWO_64
  {
  }

  lemma ModShift(a: nat, b: int)
    requires a + b >= 0
    ensures (a % TWO_64 + b) % TWO_64 == (a + b) % TWO_64
  {
    var q := a / TWO_64;
    assert a + b == (a % TWO_64 + b) + q * TWO_64;
  }

  // What a step leaves: its own table and program counter moved on, everything else as it was.
  lemma StepShape(s: System, i: nat, m: MapId)
    requires i < |s.handlers|
    ensures var h, s' := s.handlers[i], Next(s, Step(i));
            var (t, pc) := StepOn(s.At(h.prog.Map()), MaxEntries(h.prog.Map()), h);
            && s'.handlers == s.handlers[i := h.(pc := pc)]
            && s'.At(m) == if m == h.prog.Map() then t else s.At(m)
  {
    hide StepOn;
  }

  lemma OtherMapAddsNothing(h: Handler, m: MapId, key: Key, d: Direction)
    requires m != h.prog.Map()
    ensures PacketOf(h, m, key, d) == 0 && BytesOf(h, m, key, d) == 0
  {
  }

  // Counters that are the adds modulo 2^64 stay so when a step adds its share.
  lemma EntryFollows(t: Table, max: nat, h: Handler, key: Key, d: Direction, p: nat, p': nat, b: nat, b': nat)
    requires h.pc == AddPackets || h.pc == AddBytes ==> h.key in t
    requires Entry(t, key).Packets(d) == p % TWO_64 && Entry(t, key).Bytes(d) == b % TWO_64
    requires var h', m := h.(pc := StepOn(t, max, h).1), h.prog.Map();
             && p' == p - PacketOf(h, m, key, d) + PacketOf(h', m, key, d)
             && b' == b - BytesOf(h, m, key, d) + BytesOf(h', m, key, d)
    ensures var t' := StepOn(t, max, h).0;
            Entry(t', key).Packets(d) == p' % TWO_64 && Entry(t', key).Bytes(d) == b' % TWO_64
  {
    hide StepOn, PacketOf, BytesOf, Entry;
    EntryStep(t, max, h, key, d);
    ModShift(p, p' - p);
    ModShift(b, b' - b);
  }

  lemma StepConserves(s: System, i: nat, m: MapId, key: Key, d: Direction)
    requires i < |s.handlers| && HandlerInv(s, s.handlers[i]) && Conserved(s, m, key, d)
    ensures Conserved(Next(s, Step(i)), m, key, d)
  {
    var h := s.handlers[i];
    var h' := h.(pc := StepOn(s.At(h.prog.Map()), MaxEntries(h.prog.Map()), h).1);
    hide StepOn, PacketOf, BytesOf, PacketsAdded, BytesAdded, Next, Entry;
    StepShape(s, i, m);
    AddedUpdate(s.handlers, i, h', m, key, d);
    if m == h.prog.Map() {
      EntryFollows(s.At(m), MaxEntries(m), h, key, d,
                   PacketsAdded(s.handlers, m, key, d), PacketsAdded(s.handlers[i := h'], m, key, d),
                   BytesAdded(s.handlers, m, key, d), BytesAdded(s.handlers[i := h'], m, key, d));
    } else {
      OtherMapAddsNothing(h, m, key, d);
      OtherMapAddsNothing(h', m, key, d);
    }
  }

  lemma InvStep(s: System, e: Event)
    requires Inv(s)
    ensures Inv(Next(s, e))
  {
    var s' := Next(s, e);
    match e
    case Arrive(prog, key, len) =>
      forall h | h in s'.handlers ensures HandlerInv(s', h) {
        if h in s.handlers { assert HandlerInv(s, h); }
      }
      forall m, k, d ensures Conserved(s', m, k, d) {
        assert Conserved(s, m, k, d);
        AddedAppend(s.handlers, Handler(prog, key, len, Lookup), m, k, d);
      }
    case Step(i) =>
      if i < |s.handlers| {
        var h := s.handlers[i];
        TableStep(s.At(h.prog.Map()), MaxEntries(h.prog.Map()), h);
        StepHandlers(s, i);
        forall m, k, d ensures Conserved(s', m, k, d) {
          assert Conserved(s, m, k, d);
          StepConserves(s, i, m, k, d);
        }
      }
  }

  lemma {:induction false} InvRun(s: System, es: seq<Event>)
    requires Inv(s)
    ensures Inv(Run(s, es))
    decreases |es|
  {
    if es != [] {
      InvStep(s, es[0]);
      InvRun(Next(s, es[0]), es[1..]);
    }
  }

  lemma InvEmpty()
    ensures Inv(EMPTY)
  {
    forall m, key, d ensures Conserved(EMPTY, m, key, d) {
      assert PacketsAdded([], m, key, d) == 0 && BytesAdded([], m, key, d) == 0;
    }
  }

  // ---------------------------------------------------------------- results

  // In every interleaving: the tables keep their size limits, the counters of every key are
  // the adds performed for it modulo 2^64, and an instance gives up on its packet only when the
  // table is full of other keys.
  lemma Conservation(es: seq<Event>)
    ensures var s := Run(EMPTY, es);
            && |s.app| <= 5000 && |s.iface| <= 1000
            && (forall m, key, d :: Conserved(s, m, key, d))
            && (forall h :: h in s.handlers && h.pc == Done(false) ==>
                  h.key !in s.At(h.prog.Map()) && |s.At(h.prog.Map())| == MaxEntries(h.prog.Map()))
  {
    InvEmpty();
    InvRun(EMPTY, es);
    var s := Run(EMPTY, es);
    assert |s.At(AppUid)| <= MaxEntries(AppUid) && |s.At(Iface)| <= MaxEntries(Iface);
    forall h | h in s.handlers && h.pc == Done(false)
      ensures h.key !in s.At(h.prog.Map()) && |s.At(h.prog.Map())| == MaxEntries(h.prog.Map())
    {
      assert HandlerInv(s, h);
    }
  }

  // The traffic that arrived for (m, key, d), whether counted or not.
  function PacketsArrived(hs: seq<Handler>, m: MapId, key: Key, d: Direction): nat {
    if hs == [] then 0
    else (if Concerns(hs[0], m, key, d) then 1 else 0) + PacketsArrived(hs[1..], m, key, d)
  }
  function BytesArrived(hs: seq<Handler>, m: MapId, key: Key, d: Direction): nat {
    if hs == [] then 0
    else (if Concerns(hs[0], m, key, d) then hs[0].len else 0) + BytesArrived(hs[1..], m, key, d)
  }

  lemma {:induction false} AllCounted(hs: seq<Handler>, m: MapId, key: Key, d: Direction)
    requires forall h :: h in hs && h.prog.Map() == m && h.key == key ==> h.pc == Done(true)
    ensures PacketsAdded(hs, m, key, d) == PacketsArrived(hs, m, key, d)
    ensures BytesAdded(hs, m, key, d) == BytesArrived(hs, m, key, d)
  {
    if hs != [] {
      assert hs[0] in hs;
      AllCounted(hs[1..], m, key, d);
    }
  }

  // When every instance has finished, a key that has an entry has counted the traffic of all its
  // instances, and a key without one lost all of it to a full table.
  lemma InstancesBalance(es: seq<Event>, m: MapId, key: Key, d: Direction)
    requires forall h :: h in Run(EMPTY, es).handlers ==> h.pc.Done?
    ensures var s := Run(EMPTY, es);
            && (key in s.At(m) ==>
                  && s.At(m)[key].Packets(d) == PacketsArrived(s.handlers, m, key, d) % TWO_64
                  && s.At(m)[key].Bytes(d) == BytesArrived(s.handlers, m, key, d) % TWO_64)
            && (forall h :: h in s.handlers && h.prog.Map() == m && h.key == key && key !in s.At(m) ==>
                  h.pc == Done(false) && |s.At(m)| == MaxEntries(m))
  {
    InvEmpty();
    InvRun(EMPTY, es);
    var s := Run(EMPTY, es);
    assert Conserved(s, m, key, d);
    forall h | h in s.handlers && h.prog.Map() == m && h.key == key
      ensures h.pc == Done(key in s.At(m)) && (key !in s.At(m) ==> |s.At(m)| == MaxEntries(m))
    {
      assert HandlerInv(s, h);
    }
    if key in s.At(m) {
      AllCounted(s.handlers, m, key, d);
    }
  }

  // The packets that arrive at a program for a key in the course of a run, and their bytes.
  function PacketsIn(es: seq<Event>, prog: Program, key: Key): nat
    decreases |es|
  {
    if es == [] then 0
    else (if es[0].Arrive? && es[0].prog == prog && es[0].key == key then 1 else 0) + PacketsIn(es[1..], prog, key)
  }
  function BytesIn(es: seq<Event>, prog: Program, key: Key): nat
    decreases |es|
  {
    if es == [] then 0
    else (if es[0].Arrive? && es[0].prog == prog && es[0].key == key then es[0].len else 0)
         + BytesIn(es[1..], prog, key)
  }

  lemma {:induction false} ArrivedAppend(hs: seq<Handler>, h: Handler, m: MapId, key: Key, d: Direction)
    ensures PacketsArrived(hs + [h], m, key, d)
         == PacketsArrived(hs, m, key, d) + (if Concerns(h, m, key, d) then 1 else 0)
    ensures BytesArrived(hs + [h], m, key, d)
         == BytesArrived(hs, m, key, d) + (if Concerns(h, m, key, d) then h.len else 0)
  {
    if hs == [] {
      assert (hs + [h])[1..] == [];
    } else {
      assert (hs + [h])[1..] == hs[1..] + [h];
      ArrivedAppend(hs[1..], h, m, key, d);
    }
  }

  // A step of an instance leaves what it was started for.
  lemma {:induction false} ArrivedUpdate(hs: seq<Handler>, i: nat, pc: Pc, m: MapId, key: Key, d: Direction)
    requires i < |hs|
    ensures PacketsArrived(hs[i := hs[i].(pc := pc)], m, key, d) == PacketsArrived(hs, m, key, d)
    ensures BytesArrived(hs[i := hs[i].(pc := pc)], m, key, d) == BytesArrived(hs, m, key, d)
  {
    if i == 0 {
      assert hs[0 := hs[0].(pc := pc)][1..] == hs[1..];
    } else {
      assert hs[i := hs[i].(pc := pc)][1..] == hs[1..][i - 1 := hs[1..][i - 1].(pc := pc)];
      ArrivedUpdate(hs[1..], i - 1, pc, m, key, d);
    }
  }

  lemma ArrivedNext(s: System, e: Event, prog: Program, key: Key)
    ensures var m, d, s' := prog.Map(), prog.Dir(), Next(s, e);
            var mine := e.Arrive? && e.prog == prog && e.key == key;
            && PacketsArrived(s'.handlers, m, key, d) == PacketsArrived(s.handlers, m, key, d) + (if mine then 1 else 0)
            && BytesArrived(s'.handlers, m, key, d) == BytesArrived(s.handlers, m, key, d) + (if mine then e.len else 0)
  {
    var m, d := prog.Map(), prog.Dir();
    match e
    case Arrive(p, k, len) =>
      ArrivedAppend(s.handlers, Handler(p, k, len, Lookup), m, key, d);
    case Step(i) =>
      if i < |s.handlers| {
        var h := s.handlers[i];
        StepShape(s, i, m);
        ArrivedUpdate(s.handlers, i, StepOn(s.At(h.prog.Map()), MaxEntries(h.prog.Map()), h).1, m, key, d);
      }
  }

  lemma {:induction false} ArrivedRun(s: System, es: seq<Event>, prog: Program, key: Key)
    ensures var m, d, t := prog.Map(), prog.Dir(), Run(s, es);
            && PacketsArrived(t.handlers, m, key, d) == PacketsArrived(s.handlers, m, key, d) + PacketsIn(es, prog, key)
            && BytesArrived(t.handlers, m, key, d) == BytesArrived(s.handlers, m, key, d) + BytesIn(es, prog, key)
    decreases |es|
  {
    if es != [] {
      ArrivedNext(s, es[0], prog, key);
      ArrivedRun(Next(s, es[0]), es[1..], prog, key);
    }
  }

  lemma {:induction false} SomeInstance(hs: seq<Handler>, m: MapId, key: Key, d: Direction) returns (h: Handler)
    requires PacketsArrived(hs, m, key, d) > 0
    ensures h in hs && h.prog.Map() == m && h.key == key
  {
    if Concerns(hs[0], m, key, d) { h := hs[0]; } else { h := SomeInstance(hs[1..], m, key, d); }
  }

  // One program: what arrived for a key is in the counters its map and direction name.
  lemma ProgramBalance(es: seq<Event>, prog: Program, key: Key)
    requires forall h :: h in Run(EMPTY, es).handlers ==> h.pc.Done?
    ensures var s, m, d := Run(EMPTY, es), prog.Map(), prog.Dir();
            && (key in s.At(m) ==>
                  && s.At(m)[key].Packets(d) == PacketsIn(es, prog, key) % TWO_64
                  && s.At(m)[key].Bytes(d) == BytesIn(es, prog, key) % TWO_64)
            && (key !in s.At(m) && PacketsIn(es, prog, key) > 0 ==> |s.At(m)| == MaxEntries(m))
  {
    var s, m, d := Run(EMPTY, es), prog.Map(), prog.Dir();
    InstancesBalance(es, m, key, d);
    ArrivedRun(EMPTY, es, prog, key);
    if key !in s.At(m) && PacketsIn(es, prog, key) > 0 {
      var h := SomeInstance(s.handlers, m, key, d);
    }
  }

  // When every instance has finished, the books balance.  The entry of a key holds exactly the
  // packets and bytes that arrived for it: those of the ingress program as received, those of the
  // egress program as sent.  A key with traffic and without an entry lost it to a full table.
  lemma BooksBalance(es: seq<Event>, key: Key)
    requires forall h :: h in Run(EMPTY, es).handlers ==> h.pc.Done?
    ensures var s := Run(EMPTY, es);
            var w := 0x1_0000_0000_0000_0000;
            && (key in s.app ==>
                  s.app[key] == Stats(PacketsIn(es, UidIngress, key) % w, BytesIn(es, UidIngress, key) % w,
                                      PacketsIn(es, UidEgress, key) % w, BytesIn(es, UidEgress, key) % w))
            && (key in s.iface ==>
                  s.iface[key] == Stats(PacketsIn(es, IfaceIngress, key) % w, BytesIn(es, IfaceIngress, key) % w,
                                        PacketsIn(es, IfaceEgress, key) % w, BytesIn(es, IfaceEgress, key) % w))
            && (key !in s.app && PacketsIn(es, UidIngress, key) + PacketsIn(es, UidEgress, key) > 0 ==>
                  |s.app| == 5000)
            && (key !in s.iface && PacketsIn(es, IfaceIngress, key) + PacketsIn(es, IfaceEgress, key) > 0 ==>
                  |s.iface| == 1000)
  {
    hide Run, PacketsIn, BytesIn;
    ProgramBalance(es, UidIngress, key);
    ProgramBalance(es, UidEgress, key);
    ProgramBalance(es, IfaceIngress, key);
    ProgramBalance(es, IfaceEgress, key);
  }

  // ---------------------------------------------------------------- the kernel code

  // What a program does to its table when nothing else runs.
  function CountAlone(t: Table, max: nat, key: Key, d: Direction, len: nat): Table {
    if key in t then t[key := t[key].AddPacket(d).AddBytes(d, len)]
    else if |t| < max then t[key := ZERO.AddPacket(d).AddBytes(d, len)]
    else t
  }

  function StepsAlone(t: Table, max: nat, h: Handler, n: nat): (Table, Pc)
    decreases n
  {
    if n == 0 then (t, h.pc)
    else var (t', pc) := StepOn(t, max, h); StepsAlone(t', max, h.(pc := pc), n - 1)
  }

  // A BPF hash map with its three operations.
  class BpfMap {
    const maxEntries: nat
    var entries: Table

    constructor (maxEntries: nat)
      ensures this.maxEntries == maxEntries && entries == map[]
    {
      this.maxEntries := maxEntries;
      entries := map[];
    }

    method UpdateNoExist(key: Key, v: Stats) returns (ok: bool)
      modifies this
      ensures ok <==> key !in old(entries) && |old(entries)| < maxEntries
      ensures entries == if ok then old(entries)[key := v] else old(entries)
    {
      ok := key !in entries && |entries| < maxEntries;
      if ok {
        entries := entries[key := v];
      }
    }

    method FetchAndAddPackets(key: Key, d: Direction)
      requires key in entries
      modifies this
      ensures entries == old(entries)[key := old(entries)[key].AddPacket(d)]
    {
      entries := entries[key := entries[key].AddPacket(d)];
    }

    method FetchAndAddBytes(key: Key, d: Direction, len: nat)
      requires key in entries
      modifies this
      ensures entries == old(entries)[key := old(entries)[key].AddBytes(d, len)]
    {
      entries := entries[key := entries[key].AddBytes(d, len)];
    }

    // The body shared by the four programs, run without interference.
    method Count(key: Key, d: Direction, len: nat) returns (counted: bool)
      modifies this
      ensures entries == CountAlone(old(entries), maxEntries, key, d, len)
      ensures counted <==> key in entries
    {
      var found := key in entries;
      if !found {
        var _ := UpdateNoExist(key, ZERO);
        found := key in entries;
      }
      if found {
        FetchAndAddPackets(key, d);
        FetchAndAddBytes(key, d, len);
      }
      counted := found;
    }
  }

  // The indivisible steps, taken one after the other, are that code.
  lemma StepsAreTheCode(t: Table, max: nat, prog: Program, key: Key, len: nat)
    ensures StepsAlone(t, max, Handler(prog, key, len, Lookup), 5)
         == (CountAlone(t, max, key, prog.Dir(), len), Done(key in t || |t| < max))
  {
    var d := prog.Dir();
    var h := Handler(prog, key, len, Lookup);
    if key in t {
      AddsAlone(t, max, h, 4);
    } else if |t| < max {
      AddsAlone(t[key := ZERO], max, h, 2);
      assert t[key := ZERO][key := ZERO.AddPacket(d).AddBytes(d, len)] == CountAlone(t, max, key, d, len);
      assert StepsAlone(t, max, h.(pc := Insert), 4) == StepsAlone(t[key := ZERO], max, h.(pc := AddPackets), 2);
    } else {
      assert StepsAlone(t, max, h.(pc := LookupAgain), 3) == (t, Done(false));
    }
  }

  lemma AddsAlone(t: Table, max: nat, h: Handler, n: nat)
    requires h.key in t && 2 <= n
    ensures StepsAlone(t, max, h.(pc := AddPackets), n)
         == (t[h.key := t[h.key].AddPacket(h.prog.Dir()).AddBytes(h.prog.Dir(), h.len)], Done(true))
  {
    var d := h.prog.Dir();
    var t1 := t[h.key := t[h.key].AddPacket(d)];
    var t2 := t1[h.key := t1[h.key].AddBytes(d, h.len)];
    assert t2 == t[h.key := t[h.key].AddPacket(d).AddBytes(d, h.len)];
    assert StepsAlone(t1, max, h.(pc := AddBytes), n - 1) == StepsAlone(t2, max, h.(pc := Done(true)), n - 2);
    DoneStays(t2, max, h.(pc := Done(true)), n - 2);
  }

  lemma {:induction false} DoneStays(t: Table, max: nat, h: Handler, n: nat)
    requires h.pc.Done?
    ensures StepsAlone(t, max, h, n) == (t, h.pc)
    decreases n
  {
    if n > 0 { DoneStays(t, max, h, n - 1); }
  }
}
