/**
  The capabilities of a network as a 32-bit word, and the set it stands for.  A capability is the
  32-bit value of its enumerator; a negative one is a value far above the valid ones.
*/
module NetCaps {

  type Cap = bv32

  const NET_CAPABILITY_END: Cap := 32
  const NET_CAPABILITY_INTERNET: Cap := 12

  predicate IsValid(cap: Cap) { cap < NET_CAPABILITY_END }

  predicate HasBit(word: bv32, cap: Cap)
    requires IsValid(cap)
  {
    (word >> cap) & 1 == 1
  }

  function WithBit(word: bv32, cap: Cap): bv32
    requires IsValid(cap)
  {
    word | (1 << cap)
  }

  function WithoutBit(word: bv32, cap: Cap): bv32
    requires IsValid(cap)
  {
    word & !(1 << cap)
  }

  const VALID: set<Cap> := {0, 1, 2, 3, 4, 5, 6, 7, 8, 9, 10, 11, 12, 13, 14, 15, 16, 17, 18, 19, 20, 21, 22, 23, 24,
                            25, 26, 27, 28, 29, 30, 31}

  ghost function Members(word: bv32): (s: set<Cap>)
    ensures forall cap :: cap in s <==> IsValid(cap) && HasBit(word, cap)
  {
    ValidIsBelowEnd();
    set cap | cap in VALID && HasBit(word, cap)
  }

  lemma ValidIsBelowEnd()
    ensures forall cap :: cap in VALID <==> IsValid(cap)
  {
  }

  // The bit of a combined word is the combination of the bits.
  lemma BitOfOr(a: bv32, b: bv32, n: bv32)
    requires IsValid(n)
    ensures ((a | b) >> n) & 1 == ((a >> n) | (b >> n)) & 1
  {
  }

  lemma BitOfAnd(a: bv32, b: bv32, n: bv32)
    requires IsValid(n)
    ensures ((a & b) >> n) & 1 == (a >> n) & (b >> n) & 1
  {
  }

  lemma OneBit(cap: Cap, other: Cap)
    requires IsValid(cap) && IsValid(other)
    ensures ((1 as bv32 << cap) >> other) & 1 == if other == cap then 1 else 0
    ensures (!(1 as bv32 << cap) >> other) & 1 == if other == cap then 0 else 1
  {
  }

  lemma LowBit(a: bv32, b: bv32)
    ensures (a | b) & 1 == 1 <==> a & 1 == 1 || b & 1 == 1
    ensures a & b & 1 == 1 <==> a & 1 == 1 && b & 1 == 1
  {
  }

  lemma BitsAfterSet(word: bv32, cap: Cap, other: Cap)
    requires IsValid(cap) && IsValid(other)
    ensures HasBit(WithBit(word, cap), other) <==> HasBit(word, other) || other == cap
  {
    BitOfOr(word, 1 << cap, other);
    OneBit(cap, other);
    LowBit(word >> other, (1 << cap) >> other);
  }

  lemma BitsAfterClear(word: bv32, cap: Cap, other: Cap)
    requires IsValid(cap) && IsValid(other)
    ensures HasBit(WithoutBit(word, cap), other) <==> HasBit(word, other) && other != cap
  {
    BitOfAnd(word, !(1 << cap), other);
    OneBit(cap, other);
    LowBit(word >> other, !(1 << cap) >> other);
  }

  lemma NoBits(cap: Cap)
    requires IsValid(cap)
    ensures !HasBit(0, cap)
  {
  }

  lemma InsertMembers(word: bv32, cap: Cap)
    requires IsValid(cap)
    ensures Members(WithBit(word, cap)) == Members(word) + {cap}
    ensures Members(WithoutBit(word, cap)) == Members(word) - {cap}
  {
    hide HasBit, WithBit, WithoutBit;
    forall other: Cap | IsValid(other)
      ensures HasBit(WithBit(word, cap), other) <==> HasBit(word, other) || other == cap
      ensures HasBit(WithoutBit(word, cap), other) <==> HasBit(word, other) && other != cap
    {
      BitsAfterSet(word, cap, other);
      BitsAfterClear(word, cap, other);
    }
  }

  // Two words are equal iff they stand for the same set.
  lemma EqualIff(a: bv32, b: bv32)
    ensures a == b <==> Members(a) == Members(b)
  {
    if Members(a) == Members(b) {
      forall cap: Cap | IsValid(cap) ensures Agree(a, b, cap) {
        assert cap in Members(a) <==> cap in Members(b);
      }
      SameBits(a, b);
    }
  }

  predicate Agree(a: bv32, b: bv32, cap: Cap)
    requires IsValid(cap)
  {
    HasBit(a, cap) == HasBit(b, cap)
  }

  // A word from bit k on.
  function From(a: bv32, k: Cap): bv32
    requires IsValid(k)
  {
    a >> k
  }

  function Join(high: bv32, low: bool): bv32 { (high << 1) | (if low then 1 else 0) }

  // It is its part from bit k + 1 on and bit k.
  lemma Rebuild(a: bv32, k: Cap)
    requires IsValid(k)
    ensures From(a, k) == Join(if k == 31 then 0 else From(a, k + 1), HasBit(a, k))
  {
  }

  lemma {:induction false} SameFrom(a: bv32, b: bv32, k: Cap)
    requires IsValid(k) && forall cap: Cap :: IsValid(cap) ==> Agree(a, b, cap)
    ensures From(a, k) == From(b, k)
    decreases 31 - k
  {
    hide From, Join, HasBit;
    assert Agree(a, b, k);
    Rebuild(a, k);
    Rebuild(b, k);
    if k < 31 { SameFrom(a, b, k + 1); }
  }

  lemma FromZero(a: bv32)
    ensures From(a, 0) == a
  {
  }

  lemma SameBits(a: bv32, b: bv32)
    requires forall cap: Cap :: IsValid(cap) ==> Agree(a, b, cap)
    ensures a == b
  {
    hide Agree, From;
    SameFrom(a, b, 0);
    FromZero(a);
    FromZero(b);
  }

  // The shift that tests a capability is only defined below 32.
  predicate HasAll(word: bv32, caps: set<Cap>)
    requires forall cap :: cap in caps ==> IsValid(cap)
  {
    forall cap :: cap in caps ==> HasBit(word, cap)
  }

  lemma HasAllIff(word: bv32, caps: set<Cap>)
    requires forall cap :: cap in caps ==> IsValid(cap)
    ensures HasAll(word, caps) <==> caps <= Members(word)
  {
    hide HasBit;
  }

  // The capabilities among caps that a word has a bit for.
  ghost function Valid(caps: set<Cap>): set<Cap> { set cap | cap in caps && cap < 32 }

  lemma NoneValid()
    ensures Valid({}) == {}
  {
  }

  lemma ValidPlus(caps: set<Cap>, cap: Cap)
    ensures Valid(caps + {cap}) == if IsValid(cap) then Valid(caps) + {cap} else Valid(caps)
  {
  }

  lemma NoMembers()
    ensures Members(0) == {}
  {
    forall cap: Cap | IsValid(cap) ensures !HasBit(0, cap) { NoBits(cap); }
    hide HasBit;
  }

  class NetCapabilities {
    var caps: bv32

    constructor (initial: set<Cap>)
      ensures Members(caps) == Valid(initial)
    {
      caps := 0;
      new;
      NoMembers();
      hide Members, IsValid, Valid;
      var rest := initial;
      ghost var done: set<Cap> := {};
      NoneValid();
      while rest != {}
        invariant done == initial - rest && rest <= initial
        invariant Members(caps) == Valid(done)
        decreases |rest|
      {
        var cap := AnyOf(rest);
        ValidPlus(done, cap);
        InsertNetCap(cap);
        rest := rest - {cap};
        done := done + {cap};
      }
      assert done == initial;
    }

    method InsertNetCap(cap: Cap)
      modifies this
      ensures Members(caps) == if IsValid(cap) then old(Members(caps)) + {cap} else old(Members(caps))
    {
      if IsValid(cap) {
        InsertMembers(caps, cap);
        caps := caps | (1 << cap);
      }
    }

    method RemoveNetCap(cap: Cap)
      modifies this
      ensures Members(caps) == old(Members(caps)) - {cap}
    {
      hide HasBit;
      if IsValid(cap) {
        InsertMembers(caps, cap);
        caps := caps & !(1 << cap);
      }
    }

    method HasNetCap(cap: Cap) returns (r: bool)
      requires IsValid(cap)
      ensures r <==> cap in Members(caps)
    {
      r := (caps >> cap) & 1 == 1;
    }

    method HasNetCaps(wanted: set<Cap>) returns (r: bool)
      requires forall cap :: cap in wanted ==> IsValid(cap)
      ensures r <==> wanted <= Members(caps)
    {
      HasAllIff(caps, wanted);
      r := HasAll(caps, wanted);
    }

    method ToSet() returns (r: set<Cap>)
      ensures r == Members(caps)
    {
      hide HasBit;
      r := {};
      var cap: Cap := 0;
      while cap < NET_CAPABILITY_END
        invariant cap <= NET_CAPABILITY_END
        invariant r == set c | c in Members(caps) && c < cap
        decreases NET_CAPABILITY_END - cap
      {
        if HasBit(caps, cap) {
          r := r + {cap};
        }
        forall c | c in Members(caps) ensures c < cap + 1 <==> c < cap || c == cap {
          Below(c, cap);
        }
        cap := cap + 1;
      }
    }
  }

  // The next element of a set, in whatever order the set is walked.
  method AnyOf<T(==)>(s: set<T>) returns (x: T)
    requires s != {}
    ensures x in s
  {
    x :| x in s;
  }

  lemma Below(c: Cap, cap: Cap)
    requires cap < NET_CAPABILITY_END
    ensures c < cap + 1 <==> c < cap || c == cap
  {
  }
}
