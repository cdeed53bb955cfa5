/**
  Masking an address by a prefix length, byte by byte in place, and what it computes on the
  address as a number: section 3.1 of RFC 4632 for IPv4, section 2.3 of RFC 4291 for IPv6.
*/
module AddressMask {
  import opened Powers
  import opened Options

  const IPV4_PREFIX_LEN: nat := 32
  const IPV6_UINT_LEN: nat := 16
  const IPV4_UINT_LEN: nat := 4

  type Byte = x: int | 0 <= x < 256

  datatype Family = Inet | Inet6
  datatype AddressRecord = Address(family: Family, bytes: seq<Byte>)

  function Length(f: Family): nat { if f == Inet then IPV4_UINT_LEN else IPV6_UINT_LEN }

  type Address = a: AddressRecord | |a.bytes| == Length(a.family) witness Address(Inet, [0, 0, 0, 0])

  // ---------------------------------------------------------------- bytes

  // Bitwise and of the n low bits.
  function And(x: nat, y: nat, n: nat): nat {
    if n == 0 then 0 else x % 2 * (y % 2) + 2 * And(x / 2, y / 2, n - 1)
  }

  // 0xFF shifted left by 8 - h, truncated to a byte.
  function Mask(h: nat): (m: Byte)
    requires h < 8
  {
    0xFF * Pow2(8 - h) % 256
  }

  lemma {:induction false} AndAllOnes(x: nat, y: nat, n: nat)
    requires x < Pow2(n) && y == Pow2(n) - 1
    ensures And(x, y, n) == x
    decreases n
  {
    if n > 0 {
      Pow2Step(n - 1);
      hide Pow2;
      AndAllOnes(x / 2, y / 2, n - 1);
      assert y % 2 == 1;
      assert x % 2 * (y % 2) == x % 2;
    }
  }

  // And-ing with ones above the lowest k bits clears exactly these k bits.
  lemma {:induction false} AndOnes(x: nat, y: nat, k: nat, n: nat)
    requires k <= n && x < Pow2(n) && y == Pow2(n) - Pow2(k)
    ensures And(x, y, n) == x - x % Pow2(k)
    decreases n
  {
    if k == 0 {
      AndAllOnes(x, y, n);
    } else {
      Pow2Step(n - 1);
      Pow2Step(k - 1);
      Pow2Monotone(k - 1, n - 1);
      hide Pow2;
      AndOnes(x / 2, y / 2, k - 1, n - 1);
      assert y % 2 == 0;
      assert x % 2 * (y % 2) == 0;
      HalfMod(x, Pow2(k - 1));
    }
  }

  lemma HalfMod(x: nat, m: nat)
    requires m > 0
    ensures 2 * (x / 2 - x / 2 % m) == x - x % (2 * m)
  {
    var h := x / 2;
    var q, r := h / m, h % m;
    assert x == 2 * m * q + (2 * r + x % 2);
    DivModUnique(x, 2 * m, q, 2 * r + x % 2);
  }

  lemma DivModUnique(x: int, m: int, q: int, r: int)
    requires m > 0 && 0 <= r < m && x == m * q + r
    ensures x / m == q && x % m == r
  {
    var d := x / m;
    assert x == m * d + x % m;
    if d < q {
      assert m * d + m <= m * q by { MulMonotone(m, d + 1, q); }
    } else if d > q {
      assert m * q + m <= m * d by { MulMonotone(m, q + 1, d); }
    }
  }

  lemma MulMonotone(m: int, a: int, b: int)
    requires m >= 0 && a <= b
    ensures m * a <= m * b
  {
    assert m * b == m * a + m * (b - a);
  }

  lemma MaskByte(x: Byte, h: nat)
    requires h < 8
    ensures And(x, Mask(h), 8) == x - x % Pow2(8 - h)
  {
    assert Pow2(8) == 256 && Pow2(7) == 128 && Pow2(6) == 64 && Pow2(5) == 32;
    assert Pow2(4) == 16 && Pow2(3) == 8 && Pow2(2) == 4 && Pow2(1) == 2;
    assert Mask(h) == 256 - Pow2(8 - h);
    AndOnes(x, Mask(h), 8 - h, 8);
  }

  // ---------------------------------------------------------------- addresses as numbers

  // The big-endian value.
  function Value(b: seq<Byte>): nat {
    if b == [] then 0 else Pow2(8 * (|b| - 1)) * b[0] + Value(b[1..])
  }

  lemma {:induction false} ValueUnfold(b: seq<Byte>)
    requires b != []
    ensures Value(b) == Pow2(8 * (|b| - 1)) * b[0] + Value(b[1..])
  {
    hide Pow2;
  }

  lemma {:induction false} ValueBound(b: seq<Byte>)
    ensures Value(b) < Pow2(8 * |b|)
    decreases |b|
  {
    if b == [] {
      assert Pow2(0) == 1;
    } else {
      ValueBound(b[1..]);
      assert Pow2(8) == 256;
      hide Pow2;
      var m, b0: int := Pow2(8 * (|b| - 1)), b[0];
      Pow2Add(8, 8 * (|b| - 1));
      MulMonotone(m, b0 + 1, 256);
      assert m * (b0 + 1) == b0 * m + m;
    }
  }

  // Masking byte by byte: whole bytes kept, one byte masked, the rest zero.
  function MaskedByte(b: seq<Byte>, p: nat, i: nat): Byte
    requires i < |b|
  {
    if i < p / 8 then b[i]
    else if i == p / 8 then MaskByte(b[i], p % 8); And(b[i], Mask(p % 8), 8)
    else 0
  }

  function Masked(b: seq<Byte>, p: nat): (r: seq<Byte>)
    ensures |r| == |b|
  {
    seq(|b|, i requires 0 <= i < |b| => MaskedByte(b, p, i))
  }

  // f is the largest multiple of m that is not above v.
  ghost predicate IsFloor(f: int, v: int, m: int) {
    f <= v < f + m && exists k: int :: f == k * m
  }

  lemma FloorUnique(f: int, v: int, m: int)
    requires m > 0 && IsFloor(f, v, m)
    ensures f == v - v % m
  {
    var k :| f == k * m;
    DivModUnique(v, m, k, v - f);
  }

  lemma {:induction false} ZerosValue(b: seq<Byte>)
    requires forall i :: 0 <= i < |b| ==> b[i] == 0
    ensures Value(b) == 0
    decreases |b|
  {
    if b != [] { ZerosValue(b[1..]); }
  }

  lemma MaskedCons(b: seq<Byte>, p: nat)
    requires b != []
    ensures p >= 8 ==> Masked(b, p) == [b[0]] + Masked(b[1..], p - 8)
    ensures p < 8 ==> Masked(b, p)[0] == b[0] - b[0] % Pow2(8 - p) && Value(Masked(b, p)[1..]) == 0
  {
    if p < 8 {
      MaskByte(b[0], p);
      ZerosValue(Masked(b, p)[1..]);
    } else {
      forall i | 0 < i < |b| ensures Masked(b, p)[i] == Masked(b[1..], p - 8)[i - 1] {
        assert MaskedByte(b, p, i) == MaskedByte(b[1..], p - 8, i - 1);
      }
    }
  }

  // The two cases of the induction, on numbers only.
  lemma FloorOfHead(x: int, t: int, q: int, m: int, y: int, f: int, v: int)
    requires q > 0 && m > 0 && 0 <= t < m && 0 <= x && y == x - x % q && f == m * y && v == m * x + t
    ensures IsFloor(f, v, q * m)
  {
    var k, r := x / q, x % q;
    assert m * y == k * (q * m) by {
      assert y == k * q;
      MulAssoc(k, q, m);
    }
    assert m * x + t == m * y + (m * r + t);
    MulMonotone(m, r + 1, q);
    assert m * (r + 1) == m * r + m;
    MulMonotone(m, 0, r);
  }

  lemma MulAssoc(a: int, b: int, c: int)
    ensures (a * b) * c == a * (b * c)
  {
  }

  lemma FloorOfTail(f: int, t: int, x: int, q: int, m: int)
    requires m > 0 && IsFloor(f, t, m)
    ensures IsFloor(q * m * x + f, q * m * x + t, m)
  {
    var k :| f == k * m;
    assert q * m * x == (q * x) * m;
    assert q * m * x + f == (q * x + k) * m;
  }

  lemma MaskedFloorTail(b: seq<Byte>, p: nat)
    requires b != [] && 8 <= p <= 8 * |b|
    requires IsFloor(Value(Masked(b[1..], p - 8)), Value(b[1..]), Pow2(8 * |b| - p))
    ensures IsFloor(Value(Masked(b, p)), Value(b), Pow2(8 * |b| - p))
  {
    var rest := b[1..];
    MaskedCons(b, p);
    ValueUnfold(b);
    ValueUnfold(Masked(b, p));
    hide Masked, Pow2, Value, IsFloor;
    Pow2Add(p - 8, 8 * |b| - p);
    FloorOfTail(Value(Masked(rest, p - 8)), Value(rest), b[0], Pow2(p - 8), Pow2(8 * |b| - p));
    assert Masked(b, p)[1..] == Masked(rest, p - 8);
  }

  lemma MaskedFloorHead(b: seq<Byte>, p: nat)
    requires b != [] && p < 8
    ensures IsFloor(Value(Masked(b, p)), Value(b), Pow2(8 * |b| - p))
  {
    var rest, n := b[1..], 8 * (|b| - 1);
    MaskedCons(b, p);
    ValueUnfold(b);
    ValueUnfold(Masked(b, p));
    hide Masked, Pow2, Value, IsFloor;
    ValueBound(rest);
    Pow2Add(8 - p, n);
    FloorOfHead(b[0], Value(rest), Pow2(8 - p), Pow2(n), Masked(b, p)[0], Value(Masked(b, p)), Value(b));
  }

  lemma {:induction false} MaskedFloor(b: seq<Byte>, p: nat)
    requires p <= 8 * |b|
    ensures IsFloor(Value(Masked(b, p)), Value(b), Pow2(8 * |b| - p))
    decreases |b|
  {
    if b == [] {
      assert Pow2(0) == 1 && Value(Masked(b, p)) == 0 * 1;
    } else if p < 8 {
      MaskedFloorHead(b, p);
    } else {
      hide Masked, Pow2, Value, IsFloor;
      MaskedFloor(b[1..], p - 8);
      MaskedFloorTail(b, p);
    }
  }

  // Masking by p rounds the address down to a multiple of 2^(N-p), N being its number of bits.
  lemma MaskedValue(b: seq<Byte>, p: nat)
    requires p <= 8 * |b|
    ensures Value(Masked(b, p)) == Value(b) - Value(b) % Pow2(8 * |b| - p)
  {
    MaskedFloor(b, p);
    FloorUnique(Value(Masked(b, p)), Value(b), Pow2(8 * |b| - p));
  }

  lemma ValueParts(b: seq<Byte>)
    requires b != []
    ensures Value(b) / Pow2(8 * (|b| - 1)) == b[0] && Value(b) % Pow2(8 * (|b| - 1)) == Value(b[1..])
  {
    ValueUnfold(b);
    ValueBound(b[1..]);
    hide Pow2, Value;
    DivModUnique(Value(b), Pow2(8 * (|b| - 1)), b[0], Value(b[1..]));
  }

  lemma {:induction false} ValueInjective(a: seq<Byte>, b: seq<Byte>)
    requires |a| == |b| && Value(a) == Value(b)
    ensures a == b
    decreases |a|
  {
    if a != [] {
      ValueParts(a);
      ValueParts(b);
      hide Pow2, Value;
      ValueInjective(a[1..], b[1..]);
      assert a == [a[0]] + a[1..] && b == [b[0]] + b[1..];
    }
  }

  lemma MultiplesApart(a: int, b: int, m: int)
    requires m > 0 && a * m < b * m
    ensures a * m + m <= b * m
  {
    if a >= b { MulMonotone(m, b, a); }
    MulMonotone(m, a + 1, b);
  }

  lemma FloorCoarser(g: int, f: int, v: int, m: int, d: int)
    requires m > 0 && IsFloor(f, v, m) && IsFloor(g, f, d * m)
    ensures IsFloor(g, v, d * m)
  {
    var k :| f == k * m;
    var l :| g == l * (d * m);
    assert g + d * m == ((l + 1) * d) * m by { MulAssoc(l + 1, d, m); }
    MultiplesApart(k, (l + 1) * d, m);
  }

  lemma FloorFiner(g: int, f: int, m: int, d: int, k: int)
    requires m > 0 && f == k * (d * m) && IsFloor(g, f, m)
    ensures g == f
  {
    var l :| g == l * m;
    assert f == (k * d) * m by { MulAssoc(k, d, m); }
    if g < f { MultiplesApart(l, k * d, m); }
  }

  // A floor at one power of two, then at another, is the floor at the larger of the two.
  lemma FloorTwice(g: int, f: int, v: int, i: nat, j: nat)
    requires IsFloor(f, v, Pow2(i)) && IsFloor(g, f, Pow2(j))
    ensures IsFloor(g, v, Pow2(if i <= j then j else i))
  {
    hide Pow2;
    if i <= j {
      Pow2Add(j - i, i);
      FloorCoarser(g, f, v, Pow2(i), Pow2(j - i));
    } else {
      Pow2Add(i - j, j);
      var k :| f == k * Pow2(i);
      FloorFiner(g, f, Pow2(j), Pow2(i - j), k);
    }
  }

  lemma MaskedAll(b: seq<Byte>, p: nat)
    requires p >= 8 * |b|
    ensures Masked(b, p) == b
  {
  }

  // Masking twice is masking once, by the shorter prefix.
  lemma MaskTwice(b: seq<Byte>, p: nat, q: nat)
    ensures Masked(Masked(b, p), q) == Masked(b, if p <= q then p else q)
  {
    if p >= 8 * |b| {
      MaskedAll(b, p);
      if q > p { MaskedAll(b, q); }
    } else if q >= 8 * |b| {
      MaskedAll(Masked(b, p), q);
    } else {
      hide Pow2, Masked;
      var n, r := 8 * |b|, if p <= q then p else q;
      MaskedFloor(b, p);
      MaskedFloor(Masked(b, p), q);
      FloorTwice(Value(Masked(Masked(b, p), q)), Value(Masked(b, p)), Value(b), n - p, n - q);
      FloorUnique(Value(Masked(Masked(b, p), q)), Value(b), Pow2(n - r));
      MaskedValue(b, r);
      ValueInjective(Masked(Masked(b, p), q), Masked(b, r));
    }
  }

  // ---------------------------------------------------------------- leading bits

  // Bit i of a byte, and of an address, counted from the most significant one.
  function ByteBit(x: Byte, i: nat): nat
    requires i < 8
  {
    x / Pow2(7 - i) % 2
  }
  function Bit(b: seq<Byte>, i: nat): nat
    requires i < 8 * |b|
  {
    ByteBit(b[i / 8], i % 8)
  }

  ghost predicate TopBitsAgree(x: Byte, y: Byte, h: nat)
    requires h <= 8
  {
    forall i :: 0 <= i < h ==> ByteBit(x, i) == ByteBit(y, i)
  }

  lemma {:induction false} TopBits(x: Byte, y: Byte, h: nat)
    requires h <= 8
    ensures TopBitsAgree(x, y, h) <==> x / Pow2(8 - h) == y / Pow2(8 - h)
    decreases h
  {
    if h == 0 {
      assert Pow2(8) == 256;
    } else {
      TopBits(x, y, h - 1);
      Pow2Step(8 - h);
      hide Pow2;
      var m := Pow2(8 - h);
      DivTwice(x, m);
      DivTwice(y, m);
      assert ByteBit(x, h - 1) == x / m % 2 && ByteBit(y, h - 1) == y / m % 2;
      assert TopBitsAgree(x, y, h) <==> TopBitsAgree(x, y, h - 1) && ByteBit(x, h - 1) == ByteBit(y, h - 1);
    }
  }

  lemma DivTwice(x: nat, m: nat)
    requires m > 0
    ensures x / m / 2 == x / (2 * m)
  {
    var q, r := x / m, x % m;
    assert x == (2 * m) * (q / 2) + (m * (q % 2) + r);
    MulMonotone(m, q % 2, 1);
    MulMonotone(m, 0, q % 2);
    DivModUnique(x, 2 * m, q / 2, m * (q % 2) + r);
  }

  lemma SameFloor(x: nat, y: nat, m: nat)
    requires m > 0
    ensures x - x % m == y - y % m <==> x / m == y / m
  {
    assert x - x % m == m * (x / m) && y - y % m == m * (y / m);
    if x / m < y / m { MulMonotone(m, x / m + 1, y / m); }
    if y / m < x / m { MulMonotone(m, y / m + 1, x / m); }
  }

  // The number of leading bits of byte i that lie within the first p bits.
  function Within(p: nat, i: nat): (h: nat)
    ensures h <= 8
  {
    if p <= 8 * i then 0 else if p >= 8 * i + 8 then 8 else p - 8 * i
  }

  lemma MaskedByteAgrees(a: seq<Byte>, b: seq<Byte>, p: nat, i: nat)
    requires i < |a| == |b|
    ensures MaskedByte(a, p, i) == MaskedByte(b, p, i) <==> TopBitsAgree(a[i], b[i], Within(p, i))
  {
    var h := Within(p, i);
    TopBits(a[i], b[i], h);
    assert Pow2(0) == 1 && Pow2(8) == 256;
    if i == p / 8 {
      MaskByte(a[i], p % 8);
      MaskByte(b[i], p % 8);
      hide Pow2;
      SameFloor(a[i], b[i], Pow2(8 - p % 8));
    }
  }

  // Two addresses mask alike iff their first p bits agree.
  lemma MaskedAgreeIff(a: seq<Byte>, b: seq<Byte>, p: nat)
    requires |a| == |b| && p <= 8 * |a|
    ensures Masked(a, p) == Masked(b, p) <==> forall i :: 0 <= i < p ==> Bit(a, i) == Bit(b, i)
  {
    hide Pow2, ByteBit, MaskedByte;
    if Masked(a, p) == Masked(b, p) {
      forall i | 0 <= i < p ensures Bit(a, i) == Bit(b, i) {
        MaskedByteAgrees(a, b, p, i / 8);
        assert Masked(a, p)[i / 8] == Masked(b, p)[i / 8];
      }
    }
    if forall i :: 0 <= i < p ==> Bit(a, i) == Bit(b, i) {
      forall j | 0 <= j < |a| ensures Masked(a, p)[j] == Masked(b, p)[j] {
        forall i | 0 <= i < Within(p, j) ensures ByteBit(a[j], i) == ByteBit(b[j], i) {
          assert Bit(a, 8 * j + i) == Bit(b, 8 * j + i);
        }
        MaskedByteAgrees(a, b, p, j);
      }
    }
  }

  // ---------------------------------------------------------------- the routine

  // The family a prefix length is taken for, whatever the address.
  function FamilyFor(p: nat): Family { if p > IPV4_PREFIX_LEN then Inet6 else Inet }

  function MaskSpec(addr: Address, p: nat): Option<Address> {
    if addr.family != FamilyFor(p) then None else Some(Address(addr.family, Masked(addr.bytes, p)))
  }

  // Works in place on a zeroed buffer that the textual address is parsed into; parsing fails when
  // the address is not of the family the prefix length is taken for.
  method MaskAddress(addr: Address, p: nat) returns (r: Option<Address>)
    ensures r == MaskSpec(addr, p)
  {
    var af := if p > IPV4_PREFIX_LEN then Inet6 else Inet;
    var arrayLen := if af == Inet then IPV4_UINT_LEN else IPV6_UINT_LEN;
    var netScope, hostScope := p / 8, p % 8;
    var mask := Mask(hostScope);
    if addr.family != af {
      return None;
    }
    var buffer := new Byte[IPV6_UINT_LEN](i => 0);
    for i := 0 to arrayLen
      invariant forall j :: 0 <= j < i ==> buffer[j] == addr.bytes[j]
    {
      buffer[i] := addr.bytes[i];
    }
    if netScope < arrayLen {
      MaskByte(buffer[netScope], hostScope);
      buffer[netScope] := And(buffer[netScope], mask, 8);
    }
    netScope := netScope + 1;
    while netScope < arrayLen
      invariant p / 8 < netScope
      invariant forall j :: 0 <= j < arrayLen && j < netScope ==> buffer[j] == MaskedByte(addr.bytes, p, j)
      invariant forall j :: netScope <= j < arrayLen ==> buffer[j] == addr.bytes[j]
    {
      buffer[netScope] := 0;
      netScope := netScope + 1;
    }
    assert buffer[..arrayLen] == Masked(addr.bytes, p);
    return Some(Address(af, buffer[..arrayLen]));
  }

  // What a prefix of an address should be: defined for every length up to the family's width.
  function Prefix(addr: Address, p: nat): Address
    requires p <= 8 * Length(addr.family)
  {
    Address(addr.family, Masked(addr.bytes, p))
  }

  // The routine returns the prefix iff the length is taken for the address's own family: never for
  // an IPv6 address with a length of 32 or less, the default route ::/0 included.
  lemma MaskAddressIff(addr: Address, p: nat)
    requires p <= if addr.family == Inet then 32 else 128
    ensures MaskSpec(addr, p) == Some(Prefix(addr, p)) <==> (addr.family == Inet || p > 32)
    ensures MaskSpec(addr, p) == None <==> addr.family == Inet6 && p <= 32
    ensures |Prefix(addr, p).bytes| == if addr.family == Inet then 4 else 16
  {
  }
}
