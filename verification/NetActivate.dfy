/**
  A network request of an application: which networks it matches, and which of its callbacks are
  held back while the application is frozen.
*/
module NetActivate {
  import opened NetCaps
  import opened Options

  // ---------------------------------------------------------------- matching

  type BearType = int
  const BEARER_WIFI: BearType := 1
  const IDENT_WIFI := "wifi"

  // Capability requests must be enumerators a shift is defined for.
  datatype SpecifierRecord = Specifier(
    ident: string, caps: set<Cap>, bearerTypes: set<BearType>, upBand: nat, downBand: nat)
  type Specifier = s: SpecifierRecord | forall c :: c in s.caps ==> IsValid(c) witness Specifier("", {}, {}, 0, 0)

  datatype Supplier = Supplier(ident: string, caps: bv32, bearerType: BearType, upBand: nat, downBand: nat)

  predicate CompareCaps(spec: Specifier, caps: bv32) {
    if spec.caps == {} then HasBit(caps, NET_CAPABILITY_INTERNET) else HasAll(caps, spec.caps)
  }

  predicate CompareType(spec: Specifier, bearerType: BearType) {
    spec.bearerTypes == {} || bearerType in spec.bearerTypes
  }

  predicate CompareIdent(spec: Specifier, ident: string, bearerType: BearType, skipCheckIdent: bool) {
    if ident == "" || spec.ident == "" then true
    else if spec.ident == IDENT_WIFI then true
    else if ident == spec.ident then true
    else skipCheckIdent && bearerType == BEARER_WIFI
  }

  predicate CompareBand(spec: Specifier, upBand: nat, downBand: nat) {
    upBand >= spec.upBand && downBand >= spec.downBand
  }

  predicate MatchRequestAndNetwork(spec: Option<Specifier>, supplier: Option<Supplier>, skipCheckIdent: bool) {
    supplier.Some? && spec.Some?
    && CompareCaps(spec.value, supplier.value.caps)
    && CompareType(spec.value, supplier.value.bearerType)
    && CompareIdent(spec.value, supplier.value.ident, supplier.value.bearerType, skipCheckIdent)
    && CompareBand(spec.value, supplier.value.upBand, supplier.value.downBand)
  }

  // A match, said with sets.  A request without capabilities asks for internet access, which is
  // capability 12; the bearer type of Wi-Fi is 1.
  lemma MatchIff(spec: Option<Specifier>, supplier: Option<Supplier>, skipCheckIdent: bool)
    ensures MatchRequestAndNetwork(spec, supplier, skipCheckIdent) <==>
            && spec.Some? && supplier.Some?
            && var (r, s) := (spec.value, supplier.value);
            && (if r.caps == {} then 12 in Members(s.caps) else r.caps <= Members(s.caps))
            && (r.bearerTypes != {} ==> s.bearerType in r.bearerTypes)
            && (s.ident in {"", r.ident} || r.ident in {"", "wifi"} || (skipCheckIdent && s.bearerType == 1))
            && r.upBand <= s.upBand && r.downBand <= s.downBand
  {
    if spec.Some? && supplier.Some? { HasAllIff(supplier.value.caps, spec.value.caps); }
  }

  // A match is never lost when the supplier gains capabilities or bandwidth, or when the identity
  // check is relaxed.
  lemma MatchMonotone(spec: Specifier, s: Supplier, t: Supplier, skip: bool, skip': bool)
    requires Members(s.caps) <= Members(t.caps) && s.upBand <= t.upBand && s.downBand <= t.downBand
    requires s.ident == t.ident && s.bearerType == t.bearerType && (skip ==> skip')
    requires MatchRequestAndNetwork(Some(spec), Some(s), skip)
    ensures MatchRequestAndNetwork(Some(spec), Some(t), skip')
  {
    hide MatchRequestAndNetwork, Members;
    MatchIff(Some(spec), Some(s), skip);
    MatchIff(Some(spec), Some(t), skip');
  }

  // ---------------------------------------------------------------- callbacks of a frozen application

  datatype CallbackType =
    | Unknown | Available | Losting | Lost | UpdateCap | UpdateLink | Unavailable | BlockStatus

  predicate IsUpdate(t: CallbackType) { t.UpdateCap? || t.UpdateLink? }

  // lastNetId 0 means none is remembered.
  datatype Gate = Gate(lastType: CallbackType, lastNetId: int, lostDelay: bool, notifyLostNetId: int)

  function SetLastType(last: CallbackType, t: CallbackType): CallbackType {
    if IsUpdate(t) && last == Available then last else t
  }

  // A suppressed callback; suppliedNet is the id of the network in use, if there is one.
  datatype Suppressed = Suppressed(kind: CallbackType, suppliedNet: Option<int>)

  function Suppress(g: Gate, e: Suppressed): Gate {
    g.(lastNetId := if g.lastType != Lost && e.kind == Lost && g.lastNetId == 0 && e.suppliedNet.Some?
                    then e.suppliedNet.value else g.lastNetId,
       lastType := SetLastType(g.lastType, e.kind))
  }

  function SuppressAll(g: Gate, es: seq<Suppressed>): Gate {
    if es == [] then g else Suppress(SuppressAll(g, es[..|es| - 1]), es[|es| - 1])
  }

  // The type seen last, and the last one that is not an update, the initial one included.
  function LastSeen(t0: CallbackType, es: seq<Suppressed>): CallbackType {
    if es == [] then t0 else es[|es| - 1].kind
  }
  function LastNonUpdate(t0: CallbackType, es: seq<Suppressed>): Option<CallbackType> {
    if es == [] then (if t0.UpdateCap? || t0.UpdateLink? then None else Some(t0))
    else if es[|es| - 1].kind.UpdateCap? || es[|es| - 1].kind.UpdateLink? then LastNonUpdate(t0, es[..|es| - 1])
    else Some(es[|es| - 1].kind)
  }

  // What is remembered for the application when it thaws.
  lemma {:induction false} RememberedType(g: Gate, es: seq<Suppressed>)
    ensures SuppressAll(g, es).lastType ==
            if LastNonUpdate(g.lastType, es) == Some(Available) then Available else LastSeen(g.lastType, es)
    decreases |es|
  {
    if es != [] {
      RememberedType(g, es[..|es| - 1]);
      AvailableSeen(g, es[..|es| - 1]);
    }
  }

  lemma {:induction false} AvailableSeen(g: Gate, es: seq<Suppressed>)
    ensures LastSeen(g.lastType, es) == Available ==> LastNonUpdate(g.lastType, es) == Some(Available)
    decreases |es|
  {
  }

  // How often the remembered net id is written during a sequence.
  function Writes(g: Gate, es: seq<Suppressed>): nat {
    if es == [] then 0
    else
      var before := SuppressAll(g, es[..|es| - 1]);
      var e := es[|es| - 1];
      Writes(g, es[..|es| - 1])
      + (if before.lastType != Lost && e.kind == Lost && before.lastNetId == 0 && e.suppliedNet.Some? then 1 else 0)
  }

  // With non-zero net ids the remembered one is written at most once, not at all if there is one
  // already; and the lost-delay fields are left alone.
  lemma {:induction false} NetIdWrittenOnce(g: Gate, es: seq<Suppressed>)
    requires forall i :: 0 <= i < |es| ==> es[i].suppliedNet != Some(0)
    ensures Writes(g, es) <= (if g.lastNetId == 0 then 1 else 0)
    ensures SuppressAll(g, es).lastNetId == 0 <==> g.lastNetId == 0 && Writes(g, es) == 0
    ensures Writes(g, es) == 0 ==> SuppressAll(g, es).lastNetId == g.lastNetId
    ensures SuppressAll(g, es).lostDelay == g.lostDelay && SuppressAll(g, es).notifyLostNetId == g.notifyLostNetId
    decreases |es|
  {
    if es != [] {
      NetIdWrittenOnce(g, es[..|es| - 1]);
    }
  }

  // Position i is where the net id is written: a loss that follows something else.
  ghost predicate WrittenAt(g: Gate, es: seq<Suppressed>, i: nat)
    requires i < |es|
  {
    var before := SuppressAll(g, es[..i]);
    before.lastNetId == 0 && before.lastType != Lost && es[i].kind == Lost && es[i].suppliedNet.Some?
  }

  // The net id remembered is that of the network in use at that loss.
  lemma {:induction false} RememberedNetId(g: Gate, es: seq<Suppressed>)
    requires g.lastNetId == 0 && SuppressAll(g, es).lastNetId != 0
    ensures exists i :: 0 <= i < |es| && WrittenAt(g, es, i) && es[i].suppliedNet == Some(SuppressAll(g, es).lastNetId)
    decreases |es|
  {
    var n := |es| - 1;
    var front := es[..n];
    if SuppressAll(g, front).lastNetId != 0 {
      RememberedNetId(g, front);
      var i :| 0 <= i < n && WrittenAt(g, front, i) && front[i].suppliedNet == Some(SuppressAll(g, front).lastNetId);
      assert es[..i] == front[..i];
      assert WrittenAt(g, es, i);
    } else {
      assert WrittenAt(g, es, n);
    }
  }

  // ---------------------------------------------------------------- the request object

  class Activation {
    var isAppFrozen: bool
    var lastCallbackType: CallbackType
    var lastNetId: int
    var isNotifyLostDelay: bool
    var notifyLostNetId: int

    ghost function View(): Gate
      reads this
    {
      Gate(lastCallbackType, lastNetId, isNotifyLostDelay, notifyLostNetId)
    }

    constructor ()
      ensures View() == Gate(Unknown, 0, false, 0) && !isAppFrozen
    {
      isAppFrozen, lastCallbackType, lastNetId, isNotifyLostDelay, notifyLostNetId := false, Unknown, 0, false, 0;
    }

    method SetLastCallbackType(t: CallbackType)
      modifies this`lastCallbackType
      ensures lastCallbackType == SetLastType(old(lastCallbackType), t)
    {
      if (t == UpdateCap || t == UpdateLink) && lastCallbackType == Available {
        return;
      }
      lastCallbackType := t;
    }

    // limitation and foreground are what the service and the app state manager say; suppliedNet is
    // the id behind the handle of the supplier in use, if there is one.
    method IsAllowCallback(t: CallbackType, limitation: bool, foreground: bool, suppliedNet: Option<int>)
      returns (allowed: bool)
      modifies this
      ensures isAppFrozen == old(isAppFrozen)
      ensures var held := limitation && isAppFrozen && !foreground;
              && (held ==> !allowed && View() == Suppress(old(View()), Suppressed(t, suppliedNet)))
              && (!held ==> (allowed <==> !(old(isNotifyLostDelay) && t == Lost)))
              && (!held && !allowed ==> View() == old(View()))
              && (allowed ==> View() == old(View()).(lostDelay := false, notifyLostNetId := 0))
    {
      if limitation && isAppFrozen && !foreground {
        if lastCallbackType != Lost && t == Lost && lastNetId == 0 && suppliedNet.Some? {
          lastNetId := suppliedNet.value;
        }
        SetLastCallbackType(t);
        return false;
      }
      if isNotifyLostDelay && t == Lost {
        return false;
      }
      isNotifyLostDelay := false;
      notifyLostNetId := 0;
      return true;
    }
  }
}
