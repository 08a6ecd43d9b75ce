/** Prefixes as address ranges (types.go). */
module IpRange {
  import opened GoBytes
  import opened Bits

  /** `netip.Addr` without zones. */
  datatype Addr = NoAddr | V4(bytes: Bytes) | V6(bytes: Bytes)

  datatype Prefix = Prefix(addr: Addr, bits: nat)

  datatype Range = Range(family: byte, start: Bytes, end: Bytes)

  predicate ValidAddr(a: Addr) { (a.V4? && |a.bytes| == 4) || (a.V6? && |a.bytes| == 16) }

  /** `netip.Prefix.IsValid`. */
  predicate ValidPrefix(p: Prefix) { ValidAddr(p.addr) && p.bits <= 8 * |p.addr.bytes| }

  const MAPPED: Bytes := Zeros(10) + [255, 255]

  predicate IsMapped(a: Addr) { a.V6? && |a.bytes| == 16 && a.bytes[..12] == MAPPED }

  function Unmap(a: Addr): Addr { if IsMapped(a) then V4(a.bytes[12..]) else a }

  /** `addrBytes`: the 16-byte storage form. */
  function AddrBytes(a: Addr): (byte, Bytes)
    requires ValidAddr(a)
  {
    var u := Unmap(a);
    if u.V4? then (4, u.bytes + Zeros(12)) else (6, u.bytes)
  }

  // -------------------------------------------------------- bits of a string

  /** Bit `i` of `b`, from the most significant. */
  predicate BitAt(b: Bytes, i: nat)
    requires i < 8 * |b|
  {
    Bit(b[i / 8], 7 - i % 8)
  }

  predicate SamePrefix(a: Bytes, b: Bytes, n: nat)
    requires n <= 8 * |a| && n <= 8 * |b|
  {
    forall i {:trigger BitAt(a, i)} :: 0 <= i < n ==> BitAt(a, i) == BitAt(b, i)
  }

  /** The 128-bit form that prefixes of both families are compared in. */
  function Full(a: Addr): (b: Bytes)
    requires ValidAddr(a)
    ensures |b| == 16
  {
    if a.V4? then MAPPED + a.bytes else a.bytes
  }

  function FullBits(p: Prefix): nat { if p.addr.V4? then 96 + p.bits else p.bits }

  /** `a` is in the network `p`. */
  predicate Contains(p: Prefix, a: Addr)
    requires ValidPrefix(p) && ValidAddr(a)
  {
    SamePrefix(Full(a), Full(p.addr), FullBits(p))
  }

  // ------------------------------------------------------------- prefixRange

  /** `b` with all but its first `n` bits cleared. */
  function Mask(b: Bytes, n: nat): (m: Bytes)
    requires n <= 8 * |b|
    ensures |m| == |b|
  {
    ToBE(RoundDown(BE(b), Pow2(8 * |b| - n)), |b|)
  }

  function RoundDown(x: nat, p: nat): nat
    requires p > 0
  {
    DivBound(x, p);
    Scale(x / p, p);
    x / p * p
  }

  function Masked(p: Prefix): Prefix {
    if !ValidPrefix(p) then Prefix(NoAddr, 0)
    else Prefix(if p.addr.V4? then V4(Mask(p.addr.bytes, p.bits)) else V6(Mask(p.addr.bytes, p.bits)), p.bits)
  }

  /** What the loop over host bits leaves: `hostBits` ones added below a masked address. */
  function LastOf(first: Bytes, hostBits: int): Bytes {
    if hostBits <= 0 then first else ToBE(BE(first) + Pow2(hostBits) - 1, |first|)
  }

  function RangeOf(p: Prefix): Range {
    var a := Unmap(Masked(p).addr);
    match a
    case NoAddr => Range(0, Zeros(16), Zeros(16))
    case V4(b) => Range(4, b + Zeros(12), LastOf(b, 32 - p.bits) + Zeros(12))
    case V6(b) => Range(6, b, LastOf(b, 128 - p.bits))
  }

  /** The loops of `prefixRange` that set host bits, counting from byte `width - 1` up. */
  method SetHostBits(end: array<byte>, width: nat, hostBits: int)
    requires width <= end.Length && hostBits <= 8 * width
    requires hostBits > 0 ==> BE(end[..width]) % Pow2(hostBits) == 0
    modifies end
    ensures end[..width] == LastOf(old(end[..width]), hostBits)
    ensures end[width..] == old(end[width..])
  {
    hide BE, Pow2, Or, Bit;
    ghost var first := end[..width];
    if hostBits <= 0 {
      return;
    }
    var i := 0;
    PowZero();
    while i < hostBits
      invariant 0 <= i <= hostBits
      invariant BE(end[..width]) == BE(first) + Pow2(i) - 1
      invariant end[width..] == old(end[width..])
    {
      ghost var b := end[..width];
      var k := width - 1 - i / 8;
      HostBitStep(first, b, i, hostBits);
      end[k] := Or(end[k], Pow2(i % 8));
      assert end[..width] == b[k := b[k] + Pow2(i % 8)];
      i := i + 1;
    }
    ToBEBE(end[..width]);
  }

  /** One more bit set from the right. */
  lemma HostBitStep(first: Bytes, b: Bytes, i: nat, hostBits: nat)
    requires |b| == |first| && i < hostBits <= 8 * |b| && BE(first) % Pow2(hostBits) == 0
    requires BE(b) == BE(first) + Pow2(i) - 1
    ensures var k, d := |b| - 1 - i / 8, Pow2(i % 8);
            && Or(b[k], d) == b[k] + d < 256
            && BE(b[k := b[k] + d]) == BE(first) + Pow2(i + 1) - 1
  {
    hide BE, Pow2, Or, Bit;
    var k := |b| - 1 - i / 8;
    BitClear(BE(first), i, hostBits, Pow2(i) - 1);
    BitOfBE(b, 8 * |b| - 1 - i);
    SetBit(b[k], i % 8);
    SetBitInBE(b, k, i % 8);
    PowStep(i);
  }

  method PrefixRange(p: Prefix) returns (r: Range)
    ensures r == RangeOf(p)
  {
    hide LastOf, BE, Mask;
    var q := Masked(p);
    var a := Unmap(q.addr);
    if a.NoAddr? {
      return Range(0, Zeros(16), Zeros(16));
    }
    MaskedShape(p);
    if a.V4? {
      var start := a.bytes + Zeros(12);
      var end := new byte[16](i requires 0 <= i < 16 => start[i]);
      assert end[..] == start && end[..4] == a.bytes && end[4..] == Zeros(12);
      SetHostBits(end, 4, 32 - q.bits);
      assert end[..] == end[..4] + end[4..];
      return Range(4, start, end[..]);
    }
    var start := a.bytes;
    var end := new byte[16](i requires 0 <= i < 16 => start[i]);
    assert end[..] == start && end[..16] == start;
    SetHostBits(end, 16, 128 - q.bits);
    assert end[..] == end[..16];
    return Range(6, start, end[..]);
  }

  /** A masked address has the width of its family and no host bits. */
  lemma MaskedShape(p: Prefix)
    requires ValidPrefix(p)
    ensures var a := Unmap(Masked(p).addr);
            && ValidAddr(a)
            && (a.V4? && p.bits <= 32 ==> BE(a.bytes) % Pow2(32 - p.bits) == 0)
            && (a.V6? ==> BE(a.bytes) % Pow2(128 - p.bits) == 0)
  {
    hide BE, Mask;
    var m := Masked(p).addr;
    MaskValue(p.addr.bytes, p.bits);
    if p.addr.V6? && IsMapped(m) && p.bits <= 32 {
      MappedNeedsBits(p.addr.bytes, p.bits);
      assert false;
    }
  }

  /** Masking keeps an address IPv4-mapped only from bit 96 on. */
  lemma MappedNeedsBits(b: Bytes, n: nat)
    requires |b| == 16 && n <= 128 && IsMapped(V6(Mask(b, n)))
    ensures n >= 96
  {
    hide BE, Mask, Pow2;
    if n < 96 {
      var m := Mask(b, n);
      MaskValue(b, n);
      BitClear(BE(m), 32, 128 - n, 0);
      BitOfBE(m, 95);
      assert m[11] == m[..12][11] == 255;
      assert Bit(255, 0) by {
        PowZero();
      }
      assert false;
    }
  }

  lemma MaskValue(b: Bytes, n: nat)
    requires n <= 8 * |b|
    ensures var h := Pow2(8 * |b| - n);
            BE(Mask(b, n)) == BE(b) / h * h && BE(Mask(b, n)) % h == 0 && BE(Mask(b, n)) / h == BE(b) / h
  {
    hide BE, ToBE, Pow2;
    var h := Pow2(8 * |b| - n);
    var q := BE(b) / h;
    BEBound(b);
    Quotient(BE(b), h);
    BEToBE(q * h, |b|);
    DivModUnique(q * h, h, q, 0);
  }

  // --------------------------------------------------------- setting one bit

  lemma HalfQuotient(x: nat, p: nat)
    requires p > 0
    ensures x / (2 * p) == x / p / 2
  {
    var q, r := x / p, x % p;
    var a, c := q / 2, q % 2;
    assert x == q * p + r;
    assert q * p == a * (2 * p) + c * p by {
      assert q == 2 * a + c;
    }
    DivModUnique(x, 2 * p, a, c * p + r);
  }

  /** Host bit `i` of a masked address is 0, whatever is set below it. */
  lemma BitClear(x: nat, i: nat, h: nat, r: nat)
    requires i < h && x % Pow2(h) == 0 && r < Pow2(i)
    ensures !Bit(x + r, i)
  {
    Pow2Add(i, h - i);
    var p, e := Pow2(i), Pow2(h - i - 1);
    assert Pow2(h - i) == 2 * e;
    hide Pow2;
    EvenQuotient(x, p, e, r);
  }

  lemma EvenQuotient(x: nat, p: nat, e: nat, r: nat)
    requires p > 0 && e > 0 && p * (2 * e) > 0 && x % (p * (2 * e)) == 0 && r < p
    ensures (x + r) / p % 2 == 0
  {
    var m := p * (2 * e);
    var q := x / m;
    Quotient(x, m);
    Regroup(q, p, e);
    DivModUnique(x + r, p, 2 * (q * e), r);
  }

  lemma Quotient(x: nat, m: nat)
    requires m > 0
    ensures x == x / m * m + x % m && 0 <= x / m && 0 <= x % m < m
  {
    DivBound(x, m);
  }

  lemma Associate(x: int, y: int, z: int)
    ensures x * (y * z) == x * y * z
  {
  }

  lemma Regroup(q: nat, p: nat, e: nat)
    ensures q * (p * (2 * e)) == 2 * (q * e) * p
  {
    Associate(p, 2, e);
    Associate(q, p, e);
    assert p * (2 * e) == 2 * (p * e) && p * e == e * p;
    assert q * (2 * (p * e)) == 2 * (q * (p * e));
    Associate(q, e, p);
  }

  /** Bit `i` of a string is bit `8 |b| - 1 - i` of its value. */
  lemma {:induction false} BitOfBE(b: Bytes, i: nat)
    requires i < 8 * |b|
    ensures BitAt(b, i) == Bit(BE(b), 8 * |b| - 1 - i)
  {
    hide Bit, Pow2;
    var c, last := b[..|b| - 1], b[|b| - 1];
    var j := 8 * |b| - 1 - i;
    BitOfPair(BE(c), last, j);
    if j >= 8 {
      BitOfBE(c, i);
    }
  }

  lemma BitOfPair(x: nat, y: byte, j: nat)
    ensures Bit(x * 256 + y, j) == if j < 8 then Bit(y, j) else Bit(x, j - 8)
  {
    if j < 8 {
      Pow2Add(j, 8 - j);
      Pow2Values();
      var p, e := Pow2(j), Pow2(7 - j);
      hide Pow2;
      LowBits(x, y, p, e);
    } else {
      Pow2Add(8, j - 8);
      Pow2Values();
      hide Pow2;
      HighBits(x, y, Pow2(j - 8));
    }
  }

  lemma LowBits(x: nat, y: nat, p: nat, e: nat)
    requires p > 0 && p * (2 * e) == 256
    ensures (x * 256 + y) / p % 2 == y / p % 2
  {
    Quotient(y, p);
    Regroup(x, p, e);
    Substitute(x, p * (2 * e), 256);
    EvenSum(2 * (x * e) * p, p, x * e, y / p, y % p);
  }

  lemma Substitute(x: int, a: int, b: int)
    requires a == b
    ensures x * a == x * b
  {
  }

  /** An even multiple of `p` does not change the last bit of the quotient. */
  lemma EvenSum(s: nat, p: nat, z: nat, q: nat, r: nat)
    requires s == 2 * z * p && r < p
    ensures q * p + r >= 0 && (s + (q * p + r)) / p % 2 == q % 2
  {
    Distribute(2 * z + q, q, p);
    DivModUnique(s + (q * p + r), p, 2 * z + q, r);
  }

  lemma HighBits(x: nat, y: byte, p: nat)
    requires p > 0
    ensures (x * 256 + y) / (256 * p) == x / p
  {
    Quotient(x, p);
    var q, r := x / p, x % p;
    Associate(q, 256, p);
    Associate(256, q, p);
    DivModUnique(x * 256 + y, 256 * p, q, r * 256 + y);
  }

  /** Or-ing in a clear bit adds it. */
  lemma {:induction false} SetBit(x: nat, k: nat)
    requires !Bit(x, k)
    ensures Or(x, Pow2(k)) == x + Pow2(k)
  {
    if k == 0 {
      OrZero(x / 2);
    } else {
      DivModDouble(x, Pow2(k - 1));
      SetBit(x / 2, k - 1);
      assert Pow2(k) / 2 == Pow2(k - 1) && Pow2(k) % 2 == 0;
    }
  }

  lemma SetBitInBE(b: Bytes, k: nat, j: nat)
    requires k < |b| && j < 8 && !Bit(b[k], j)
    ensures b[k] + Pow2(j) < 256
    ensures BE(b[k := b[k] + Pow2(j)]) == BE(b) + Pow2(8 * (|b| - 1 - k) + j)
  {
    hide BE, Pow2, Bit;
    ByteRoom(b[k], j);
    var c := b[k := b[k] + Pow2(j)];
    var rest := b[k + 1..];
    assert b == b[..k] + ([b[k]] + rest) && c == b[..k] + ([c[k]] + rest);
    BEConcat(b[..k], [b[k]] + rest);
    BEConcat(b[..k], [c[k]] + rest);
    BEConcat([b[k]], rest);
    BEConcat([c[k]], rest);
    OneByte(b[k]);
    OneByte(c[k]);
    var p := Pow2(8 * |rest|);
    SplitTail(BE(b[..k]), Pow2(8 * (1 + |rest|)), b[k], Pow2(j), p, BE(rest));
    Pow2Add(j, 8 * |rest|);
  }

  lemma SplitTail(a: int, m: int, x: int, d: int, p: int, r: int)
    ensures a * m + ((x + d) * p + r) == a * m + (x * p + r) + d * p
  {
    Distribute(x, -d, p);
  }

  lemma OneByte(x: byte)
    ensures BE([x]) == x
  {
    assert [x][..0] == [];
  }

  lemma ByteRoom(x: byte, j: nat)
    requires j < 8 && !Bit(x, j)
    ensures x + Pow2(j) < 256
  {
    Pow2Add(j, 8 - j);
    Pow2Values();
    var p, e := Pow2(j), Pow2(7 - j);
    hide Pow2;
    RoomAbove(x, p, e);
  }

  lemma RoomAbove(x: nat, p: nat, e: nat)
    requires p > 0 && p * (2 * e) == 256 && x < 256 && x / p % 2 == 0
    ensures x + p < 256
  {
    Quotient(x, p);
    var q := x / p;
    Associate(2, e, p);
    Distribute(q, 2 * e, p);
    Distribute(q, 2 * e - 2, p);
    Distribute(2 * e, 2, p);
    Scale(q - 2 * e, p);
    Scale(2 * e - 2 - q, p);
    assert p * (2 * e) == 2 * e * p;
  }

  // ------------------------------------------------------------- membership

  /** `bytes.Compare`. */
  function Compare(a: Bytes, b: Bytes): int {
    if |a| == 0 then (if |b| == 0 then 0 else -1)
    else if |b| == 0 then 1
    else if a[0] < b[0] then -1
    else if a[0] > b[0] then 1
    else Compare(a[1..], b[1..])
  }

  /** The test both lookups make: `start <= key <= end`, byte by byte. */
  predicate InRange(key: Bytes, start: Bytes, end: Bytes) {
    !(Compare(key, start) < 0) && !(Compare(key, end) > 0)
  }

  lemma {:induction false} CompareIsNumeric(a: Bytes, b: Bytes)
    requires |a| == |b|
    ensures Compare(a, b) < 0 <==> BE(a) < BE(b)
    ensures Compare(a, b) > 0 <==> BE(a) > BE(b)
  {
    if |a| > 0 {
      var s, t := a[1..], b[1..];
      assert a == [a[0]] + s && b == [b[0]] + t;
      hide BE;
      CompareIsNumeric(s, t);
      BEConcat([a[0]], s);
      BEConcat([b[0]], t);
      OneByte(a[0]);
      OneByte(b[0]);
      BEBound(s);
      BEBound(t);
      HighByteDecides(a[0], b[0], Pow2(8 * |s|), BE(s), BE(t));
      HighByteDecides(b[0], a[0], Pow2(8 * |s|), BE(t), BE(s));
    }
  }

  lemma HighByteDecides(x: nat, y: nat, p: nat, r: nat, s: nat)
    requires r < p && s < p
    ensures x < y ==> x * p + r < y * p + s
  {
    if x < y {
      Distribute(y, x, p);
      Scale(y - x, p);
    }
  }

  /** A range of `2^h` numbers from a multiple of `2^h` holds what shares the quotient. */
  lemma InBlock(x: nat, first: nat, p: nat)
    requires p > 0 && first % p == 0
    ensures first <= x <= first + p - 1 <==> x / p == first / p
  {
    var q := first / p;
    assert first == q * p;
    if first <= x <= first + p - 1 {
      DivModUnique(x, p, q, x - first);
    }
  }

  /** Sharing leading bits is having the same quotient. */
  lemma {:induction false} SameQuotient(x: nat, y: nat, h: nat, k: nat)
    requires h <= k && x < Pow2(k) && y < Pow2(k)
    ensures x / Pow2(h) == y / Pow2(h) <==> forall j :: h <= j < k ==> Bit(x, j) == Bit(y, j)
    decreases k - h
  {
    if h == k {
      DivModUnique(x, Pow2(k), 0, x);
      DivModUnique(y, Pow2(k), 0, y);
    } else {
      SameQuotient(x, y, h + 1, k);
      HalfQuotient(x, Pow2(h));
      HalfQuotient(y, Pow2(h));
      var a, b := x / Pow2(h), y / Pow2(h);
      assert a == b <==> a / 2 == b / 2 && a % 2 == b % 2;
      assert Bit(x, h) == Bit(y, h) <==> a % 2 == b % 2;
      if forall j :: h + 1 <= j < k ==> Bit(x, j) == Bit(y, j) {
        assert Bit(x, h) == Bit(y, h) ==> forall j :: h <= j < k ==> j == h || Bit(x, j) == Bit(y, j);
      }
    }
  }

  lemma SharedBits(a: Bytes, b: Bytes, n: nat)
    requires |a| == |b| && n <= 8 * |a|
    ensures SamePrefix(a, b, n) <==> BE(a) / Pow2(8 * |a| - n) == BE(b) / Pow2(8 * |a| - n)
  {
    hide Bit, BE;
    var w := 8 * |a|;
    BEBound(a);
    BEBound(b);
    SameQuotient(BE(a), BE(b), w - n, w);
    forall i | 0 <= i < w
      ensures BitAt(a, i) == Bit(BE(a), w - 1 - i) && BitAt(b, i) == Bit(BE(b), w - 1 - i)
    {
      BitOfBE(a, i);
      BitOfBE(b, i);
    }
    if SamePrefix(a, b, n) {
      forall j | w - n <= j < w
        ensures Bit(BE(a), j) == Bit(BE(b), j)
      {
        assert BitAt(a, w - 1 - j) == BitAt(b, w - 1 - j);
      }
    }
  }

  /** The end of a masked block, as a number. */
  lemma LastValue(first: Bytes, h: nat)
    requires h <= 8 * |first| && BE(first) % Pow2(h) == 0
    ensures |LastOf(first, h)| == |first|
    ensures BE(LastOf(first, h)) == BE(first) + Pow2(h) - 1
  {
    hide BE, ToBE, Pow2;
    BEBound(first);
    if h > 0 {
      var w := 8 * |first|;
      Pow2Add(h, w - h);
      BlockFits(BE(first), Pow2(h), Pow2(w - h));
      BEToBE(BE(first) + Pow2(h) - 1, |first|);
    } else {
      assert Pow2(0) == 1 by {
        PowZero();
      }
    }
  }

  lemma PowStep(i: nat)
    ensures Pow2(i + 1) == 2 * Pow2(i)
  {
  }

  lemma PowZero()
    ensures Pow2(0) == 1
  {
  }

  /** The block of size `p` at a multiple of `p` below `p * r` stays below it. */
  lemma BlockFits(x: nat, p: nat, r: nat)
    requires p > 0 && x % p == 0 && x < p * r
    ensures x + p - 1 < p * r
  {
    Quotient(x, p);
    var q := x / p;
    Distribute(q, r, p);
    Distribute(r, q, p);
    Scale(q - r, p);
    Scale(r - q, p);
    assert p * r == r * p;
  }

  /** Membership in a block, with no bytes behind the address. */
  lemma BlockMembership(key: Bytes, net: Bytes, n: nat)
    requires |key| == |net| && n <= 8 * |net|
    ensures |LastOf(Mask(net, n), 8 * |net| - n)| == |net|
    ensures BE(Mask(net, n)) <= BE(key) <= BE(LastOf(Mask(net, n), 8 * |net| - n)) <==> SamePrefix(key, net, n)
  {
    hide BE, LastOf, Mask;
    MaskValue(net, n);
    LastValue(Mask(net, n), 8 * |net| - n);
    InBlock(BE(key), BE(Mask(net, n)), Pow2(8 * |net| - n));
    SharedBits(key, net, n);
  }

  lemma CompareTail(a: Bytes, b: Bytes, z: Bytes)
    requires |a| == |b|
    ensures Compare(a + z, b + z) < 0 <==> BE(a) < BE(b)
    ensures Compare(a + z, b + z) > 0 <==> BE(a) > BE(b)
  {
    hide BE, Compare;
    CompareIsNumeric(a + z, b + z);
    BEConcat(a, z);
    BEConcat(b, z);
    BEBound(z);
    HighByteDecides(BE(a), BE(b), Pow2(8 * |z|), BE(z), BE(z));
    HighByteDecides(BE(b), BE(a), Pow2(8 * |z|), BE(z), BE(z));
  }

  lemma SamePrefixMapped(a: Bytes, b: Bytes, n: nat)
    requires |a| == 4 && |b| == 4 && n <= 32
    ensures SamePrefix(MAPPED + a, MAPPED + b, 96 + n) <==> SamePrefix(a, b, n)
  {
    hide Bit;
    var x, y := MAPPED + a, MAPPED + b;
    forall i: nat | i < 32
      ensures BitAt(x, 96 + i) == BitAt(a, i) && BitAt(y, 96 + i) == BitAt(b, i)
    {
      assert (96 + i) / 8 == 12 + i / 8 && (96 + i) % 8 == i % 8;
    }
    forall i: nat | i < 96
      ensures BitAt(x, i) == BitAt(y, i)
    {
      assert x[i / 8] == y[i / 8];
    }
    if SamePrefix(x, y, 96 + n) {
      forall i | 0 <= i < n
        ensures BitAt(a, i) == BitAt(b, i)
      {
        assert BitAt(x, 96 + i) == BitAt(y, 96 + i);
      }
    } else if SamePrefix(a, b, n) {
      forall i | 0 <= i < 96 + n
        ensures BitAt(x, i) == BitAt(y, i)
      {
        if i >= 96 {
          assert BitAt(a, i - 96) == BitAt(b, i - 96);
          assert BitAt(x, 96 + (i - 96)) == BitAt(a, i - 96);
        }
      }
    }
  }

  // ------------------------------------------------------------- main result

  /** Masking clears no leading bit. */
  lemma MaskShares(b: Bytes, n: nat, k: nat)
    requires k <= n <= 8 * |b|
    ensures SamePrefix(Mask(b, n), b, k)
  {
    hide BE, Mask, BitAt;
    MaskValue(b, n);
    SharedBits(Mask(b, n), b, n);
  }

  lemma MaskKeepsMapped(b: Bytes, n: nat)
    requires |b| == 16 && 96 <= n <= 128
    ensures Mask(b, n)[..12] == b[..12]
  {
    hide BE, Mask, SamePrefix, Pow2;
    var m := Mask(b, n);
    MaskShares(b, n, 96);
    SharedBits(m, b, 96);
    HighPart(m, 12);
    HighPart(b, 12);
    BEInjective(m[..12], b[..12]);
  }

  lemma HighPart(b: Bytes, k: nat)
    requires k <= |b|
    ensures BE(b) / Pow2(8 * (|b| - k)) == BE(b[..k])
  {
    hide BE, Pow2;
    assert b == b[..k] + b[k..];
    BEConcat(b[..k], b[k..]);
    BEBound(b[k..]);
    DivModUnique(BE(b), Pow2(8 * (|b| - k)), BE(b[..k]), BE(b[k..]));
  }

  /** A prefix of an IPv4-mapped address that is longer than the mapping and
      not a single address. */
  predicate MappedNetwork(p: Prefix) { IsMapped(p.addr) && 96 <= p.bits < 128 }

  predicate InRangeOf(p: Prefix, a: Addr)
    requires ValidAddr(a)
  {
    InRange(AddrBytes(a).1, RangeOf(p).start, RangeOf(p).end)
  }

  /** The last address is the first plus `2^hostBits - 1`. */
  lemma RangeEnd(p: Prefix)
    requires ValidPrefix(p) && !MappedNetwork(p)
    ensures var r := RangeOf(p);
            && (r.family == 4 || r.family == 6) && |r.start| == 16 && |r.end| == 16
            && var w := if r.family == 4 then 4 else 16;
               && r.start[w..] == r.end[w..] == Zeros(16 - w)
               && BE(r.end[..w]) == BE(r.start[..w]) + Pow2(8 * |p.addr.bytes| - p.bits) - 1
  {
    hide BE, Mask, LastOf;
    var m := Mask(p.addr.bytes, p.bits);
    MaskValue(p.addr.bytes, p.bits);
    LastValue(m, 8 * |m| - p.bits);
    if p.addr.V6? && IsMapped(V6(m)) {
      OnlyAddress(p);
    }
    var r := RangeOf(p);
    var w := if r.family == 4 then 4 else 16;
    if p.addr.V4? {
      assert r.start[..4] == m && r.end[..4] == LastOf(m, 32 - p.bits);
    } else {
      assert r.family == 6 ==> r.start[..16] == m && r.end[..16] == LastOf(m, 128 - p.bits);
    }
  }

  /** Mapped after masking: a mapped network, or one mapped address. */
  lemma OnlyAddress(p: Prefix)
    requires ValidPrefix(p) && p.addr.V6? && IsMapped(V6(Mask(p.addr.bytes, p.bits)))
    ensures IsMapped(p.addr) && p.bits >= 96
    ensures var last := Mask(p.addr.bytes, p.bits)[12..];
            RangeOf(p) == Range(4, last + Zeros(12), last + Zeros(12))
    ensures p.bits == 128 ==> Mask(p.addr.bytes, p.bits) == p.addr.bytes
  {
    hide BE, Mask;
    MappedNeedsBits(p.addr.bytes, p.bits);
    MaskKeepsMapped(p.addr.bytes, p.bits);
    if p.bits == 128 {
      PowZero();
      MaskValue(p.addr.bytes, 128);
      BEInjective(Mask(p.addr.bytes, 128), p.addr.bytes);
    }
  }

  lemma InIPv4(p: Prefix, a: Addr)
    requires ValidPrefix(p) && p.addr.V4? && ValidAddr(a) && AddrBytes(a).0 == 4
    ensures InRangeOf(p, a) <==> Contains(p, a)
  {
    hide BE, Mask, LastOf, Compare, SamePrefix, Zeros;
    var key := Unmap(a).bytes;
    BlockMembership(key, p.addr.bytes, p.bits);
    var first := Mask(p.addr.bytes, p.bits);
    CompareTail(key, first, Zeros(12));
    CompareTail(key, LastOf(first, 32 - p.bits), Zeros(12));
    SamePrefixMapped(key, p.addr.bytes, p.bits);
    assert Full(a) == MAPPED + key;
  }

  lemma InIPv6(p: Prefix, a: Addr)
    requires ValidPrefix(p) && p.addr.V6? && !IsMapped(V6(Mask(p.addr.bytes, p.bits)))
    requires ValidAddr(a) && AddrBytes(a).0 == 6
    ensures InRangeOf(p, a) <==> Contains(p, a)
  {
    hide BE, Mask, LastOf, Compare, SamePrefix, Zeros;
    BlockMembership(a.bytes, p.addr.bytes, p.bits);
    var first := Mask(p.addr.bytes, p.bits);
    CompareIsNumeric(a.bytes, first);
    CompareIsNumeric(a.bytes, LastOf(first, 128 - p.bits));
  }

  lemma InSingle(p: Prefix, a: Addr)
    requires ValidPrefix(p) && IsMapped(p.addr) && p.bits == 128
    requires ValidAddr(a) && AddrBytes(a).0 == 4
    ensures InRangeOf(p, a) <==> Contains(p, a)
  {
    hide BE, Mask, Compare, SamePrefix, Zeros;
    MaskKeepsMapped(p.addr.bytes, 128);
    OnlyAddress(p);
    var key, only := Unmap(a).bytes, p.addr.bytes[12..];
    CompareTail(key, only, Zeros(12));
    assert InRangeOf(p, a) <==> key == only by {
      if BE(key) == BE(only) {
        BEInjective(key, only);
      }
    }
    assert Full(a) == MAPPED + key && Full(p.addr) == MAPPED + only;
    SharedBits(Full(a), Full(p.addr), 128);
    PowZero();
    if Contains(p, a) {
      BEInjective(Full(a), Full(p.addr));
      assert Full(a)[12..] == key && Full(p.addr)[12..] == only;
    }
  }

  /** A mapped network's range is its first address alone; it misses the next one. */
  lemma MappedNetworkMisses(p: Prefix) returns (a: Addr)
    requires ValidPrefix(p) && MappedNetwork(p)
    ensures ValidAddr(a) && AddrBytes(a).0 == RangeOf(p).family && Contains(p, a) && !InRangeOf(p, a)
  {
    hide BE, Mask, Compare, Pow2, Zeros, SamePrefix;
    MaskKeepsMapped(p.addr.bytes, p.bits);
    OnlyAddress(p);
    var n := p.bits;
    var m := Mask(p.addr.bytes, n);
    var first := m[12..];
    assert m == MAPPED + first;
    MaskValue(p.addr.bytes, n);
    PowZero();
    Pow2Mono(1, 128 - n);
    Pow2Values();
    BitClear(BE(m), 0, 128 - n, 0);
    BitOfBE(m, 127);
    SetBitInBE(m, 15, 0);
    var next := m[15 := m[15] + 1];
    a := V4(next[12..]);
    assert Full(a) == next;
    InBlock(BE(next), BE(m), Pow2(128 - n));
    SharedBits(next, p.addr.bytes, n);
    assert BE(next) / Pow2(128 - n) == BE(m) / Pow2(128 - n);
    CompareTail(next[12..], first, Zeros(12));
    assert next[12..][3] == next[15] && first[3] == m[15];
    if BE(next[12..]) == BE(first) {
      BEInjective(next[12..], first);
      assert false;
    }
  }

  /** Byte-order membership in the range is membership in the network, for every
      address of the range's family, exactly when the prefix is not a mapped network. */
  lemma RangeIsNetwork(p: Prefix)
    requires ValidPrefix(p)
    ensures (forall a :: ValidAddr(a) && AddrBytes(a).0 == RangeOf(p).family ==> (InRangeOf(p, a) <==> Contains(p, a)))
            <==> !MappedNetwork(p)
  {
    hide BE, Mask, InRangeOf, Contains, LastOf;
    if MappedNetwork(p) {
      var a := MappedNetworkMisses(p);
    } else {
      forall a | ValidAddr(a) && AddrBytes(a).0 == RangeOf(p).family
        ensures InRangeOf(p, a) <==> Contains(p, a)
      {
        if p.addr.V4? {
          InIPv4(p, a);
        } else if IsMapped(V6(Mask(p.addr.bytes, p.bits))) {
          OnlyAddress(p);
          InSingle(p, a);
        } else {
          InIPv6(p, a);
        }
      }
    }
  }

  /** IPv4-mapped addresses are those of ::ffff:0:0/96, as numbers. */
  lemma MappedIsNumber(a: Addr)
    requires a.V6? && |a.bytes| == 16
    ensures IsMapped(a) <==> BE(a.bytes) / 0x1_0000_0000 == 0xFFFF
    ensures IsMapped(a) ==> BE(Unmap(a).bytes) == BE(a.bytes) % 0x1_0000_0000
  {
    hide BE;
    var hi, lo := a.bytes[..12], a.bytes[12..];
    assert a.bytes == hi + lo;
    BEConcat(hi, lo);
    BEBound(lo);
    Pow2Values();
    DivModUnique(BE(a.bytes), 0x1_0000_0000, BE(hi), BE(lo));
    MappedValue();
    if BE(hi) == 0xFFFF {
      BEInjective(hi, MAPPED);
    }
  }

  lemma MappedValue()
    ensures BE(MAPPED) == 0xFFFF
  {
    assert MAPPED == Zeros(10) + [255, 255];
    ZerosValue(10);
    BEConcat(Zeros(10), [255, 255]);
    assert [255, 255][..1] == [255] && [255][..0] == [];
    assert BE([255, 255]) == 0xFFFF;
  }

  lemma {:induction false} ZerosValue(n: nat)
    ensures BE(Zeros(n)) == 0
  {
    if n > 0 {
      assert Zeros(n)[..n - 1] == Zeros(n - 1);
      ZerosValue(n - 1);
    }
  }

  /** `Compare` is the order of words in a dictionary: a prefix comes first, and
      otherwise the first byte that differs decides. */
  lemma {:induction false} CompareIsLexicographic(p: Bytes, x: byte, s: Bytes, y: byte, t: Bytes)
    ensures Compare(p, p) == 0 && Compare(p, p + ([x] + s)) < 0 < Compare(p + ([x] + s), p)
    ensures x < y ==> Compare(p + ([x] + s), p + ([y] + t)) < 0 < Compare(p + ([y] + t), p + ([x] + s))
  {
    if |p| == 0 {
      assert p + ([x] + s) == [x] + s && p + ([y] + t) == [y] + t;
    } else {
      var q := p[1..];
      CompareIsLexicographic(q, x, s, y, t);
      assert (p + ([x] + s))[1..] == q + ([x] + s) && (p + ([y] + t))[1..] == q + ([y] + t);
    }
  }
}
