/** The challenge page's hand-written SHA-256, in JavaScript's arithmetic:
    numbers are integers of either sign, bitwise operators convert their
    operands to 32 bits and yield signed results, and typed arrays convert on
    store. `sha256` is split at its loops; each part is one method. */
module PageSha256 {
  import opened GoBytes
  import opened Bits
  import opened Sha256

  // --------------------------------------------------- JavaScript operators

  /** Integers a JavaScript number holds exactly. */
  predicate Exact(x: int) { -0x20_0000_0000_0000 < x < 0x20_0000_0000_0000 }

  function ToUint32(x: int): word { Wrap(x) }

  function ToInt32(x: int): int {
    var u: int := Wrap(x); if u < 0x8000_0000 then u else u - 0x1_0000_0000
  }

  /** `x + y`, where the sum needs no rounding. */
  function Plus(x: int, y: int): int
    requires Exact(x) && Exact(y) && Exact(x + y)
  {
    x + y
  }

  /** `x >>> n`. */
  function ShiftRight(x: int, n: nat): int { Shr(ToUint32(x), n) }

  /** `x << n`. */
  function ShiftLeft(x: int, n: nat): int { ToInt32(Shl(ToUint32(x), n)) }

  function BitOr(x: int, y: int): int { ToInt32(WOr(ToUint32(x), ToUint32(y))) }

  function BitAnd(x: int, y: int): int { ToInt32(WAnd(ToUint32(x), ToUint32(y))) }

  function BitXor(x: int, y: int): int { ToInt32(WXor(ToUint32(x), ToUint32(y))) }

  function BitNot(x: int): int { ToInt32(WNot(ToUint32(x))) }

  /** `x` stands for the word `w`, and is small enough to be added exactly. */
  predicate Holds(x: int, w: word) { ToUint32(x) == w && Small(x) }

  predicate Small(x: int) { -0x1_0000_0000 < x < 0x1_0000_0000 }

  lemma HoldsInt32(x: int)
    ensures Holds(ToInt32(x), ToUint32(x))
  {
  }

  lemma HoldsWord(w: word)
    ensures Holds(w, w)
  {
  }

  // ------------------------------------------- the page's bit expressions

  function RotateRight(x: int, n: nat): int
    requires n < 32
  {
    BitOr(ShiftRight(x, n), ShiftLeft(x, 32 - n))
  }

  function S0(a: int): int { BitXor(BitXor(RotateRight(a, 2), RotateRight(a, 13)), RotateRight(a, 22)) }

  function S1(e: int): int { BitXor(BitXor(RotateRight(e, 6), RotateRight(e, 11)), RotateRight(e, 25)) }

  function LowS0(x: int): int { BitXor(BitXor(RotateRight(x, 7), RotateRight(x, 18)), ShiftRight(x, 3)) }

  function LowS1(x: int): int { BitXor(BitXor(RotateRight(x, 17), RotateRight(x, 19)), ShiftRight(x, 10)) }

  function Choose(e: int, f: int, g: int): int { BitXor(BitAnd(e, f), BitAnd(BitNot(e), g)) }

  function Majority(a: int, b: int, c: int): int {
    BitXor(BitXor(BitAnd(a, b), BitAnd(a, c)), BitAnd(b, c))
  }

  lemma HoldsRotate(x: int, w: word, n: nat)
    requires Holds(x, w) && n < 32
    ensures Holds(RotateRight(x, n), Rotr(w, n))
  {
    hide WOr, Shl, Shr;
    HoldsInt32(Shl(w, 32 - n));
    HoldsInt32(WOr(Shr(w, n), Shl(w, 32 - n)));
  }

  lemma HoldsXor(x: int, v: word, y: int, w: word)
    requires Holds(x, v) && Holds(y, w)
    ensures Holds(BitXor(x, y), WXor(v, w)) && Holds(BitAnd(x, y), WAnd(v, w))
    ensures Holds(BitNot(x), WNot(v))
  {
    hide WXor, WAnd, WNot;
    HoldsInt32(WXor(v, w));
    HoldsInt32(WAnd(v, w));
    HoldsInt32(WNot(v));
  }

  lemma HoldsSigmas(x: int, w: word)
    requires Holds(x, w)
    ensures Holds(S0(x), BigSigma0(w)) && Holds(S1(x), BigSigma1(w))
  {
    hide Holds, RotateRight, Rotr, BitXor, WXor;
    HoldsRotate(x, w, 2);
    HoldsRotate(x, w, 13);
    HoldsRotate(x, w, 22);
    HoldsXor(RotateRight(x, 2), Rotr(w, 2), RotateRight(x, 13), Rotr(w, 13));
    HoldsXor(BitXor(RotateRight(x, 2), RotateRight(x, 13)), WXor(Rotr(w, 2), Rotr(w, 13)),
             RotateRight(x, 22), Rotr(w, 22));
    HoldsRotate(x, w, 6);
    HoldsRotate(x, w, 11);
    HoldsRotate(x, w, 25);
    HoldsXor(RotateRight(x, 6), Rotr(w, 6), RotateRight(x, 11), Rotr(w, 11));
    HoldsXor(BitXor(RotateRight(x, 6), RotateRight(x, 11)), WXor(Rotr(w, 6), Rotr(w, 11)),
             RotateRight(x, 25), Rotr(w, 25));
  }

  lemma HoldsLowSigma0(x: int, w: word)
    requires Holds(x, w)
    ensures Holds(LowS0(x), SmallSigma0(w))
  {
    assert Holds(ShiftRight(x, 3), Shr(w, 3));
    hide Holds, RotateRight, Rotr, BitXor, WXor, ShiftRight, Shr;
    HoldsRotate(x, w, 7);
    HoldsRotate(x, w, 18);
    HoldsXor(RotateRight(x, 7), Rotr(w, 7), RotateRight(x, 18), Rotr(w, 18));
    HoldsXor(BitXor(RotateRight(x, 7), RotateRight(x, 18)), WXor(Rotr(w, 7), Rotr(w, 18)),
             ShiftRight(x, 3), Shr(w, 3));
  }

  lemma HoldsLowSigma1(x: int, w: word)
    requires Holds(x, w)
    ensures Holds(LowS1(x), SmallSigma1(w))
  {
    assert Holds(ShiftRight(x, 10), Shr(w, 10));
    hide Holds, RotateRight, Rotr, BitXor, WXor, ShiftRight, Shr;
    HoldsRotate(x, w, 17);
    HoldsRotate(x, w, 19);
    HoldsXor(RotateRight(x, 17), Rotr(w, 17), RotateRight(x, 19), Rotr(w, 19));
    HoldsXor(BitXor(RotateRight(x, 17), RotateRight(x, 19)), WXor(Rotr(w, 17), Rotr(w, 19)),
             ShiftRight(x, 10), Shr(w, 10));
  }

  lemma HoldsChooseMajority(x: int, a: word, y: int, b: word, z: int, c: word)
    requires Holds(x, a) && Holds(y, b) && Holds(z, c)
    ensures Holds(Choose(x, y, z), Ch(a, b, c)) && Holds(Majority(x, y, z), Maj(a, b, c))
  {
    hide Holds, BitXor, BitAnd, BitNot, WXor, WAnd, WNot;
    HoldsXor(x, a, y, b);
    HoldsXor(x, a, z, c);
    HoldsXor(y, b, z, c);
    HoldsXor(BitNot(x), WNot(a), z, c);
    HoldsXor(BitAnd(x, y), WAnd(a, b), BitAnd(BitNot(x), z), WAnd(WNot(a), c));
    HoldsXor(BitAnd(x, y), WAnd(a, b), BitAnd(x, z), WAnd(a, c));
    HoldsXor(BitXor(BitAnd(x, y), BitAnd(x, z)), WXor(WAnd(a, b), WAnd(a, c)), BitAnd(y, z), WAnd(b, c));
  }

  /** A sum of two, four or five representatives, taken `|0`, represents the
      sum modulo 2^32 of the words. */
  lemma WrapSum(x: int, v: int, y: int, w: int)
    requires Wrap(x) == Wrap(v) && Wrap(y) == Wrap(w)
    ensures Wrap(x + y) == Wrap(v + w)
  {
  }

  lemma HoldsWrap(x: int, w: word)
    requires Holds(x, w)
    ensures Wrap(x) == Wrap(w)
  {
  }

  lemma HoldsSum2(x1: int, v1: word, x2: int, v2: word)
    requires Holds(x1, v1) && Holds(x2, v2)
    ensures Holds(ToInt32(x1 + x2), Wrap(v1 as int + v2 as int))
  {
    WrapSum(x1, v1, x2, v2);
    HoldsInt32(x1 + x2);
  }

  lemma HoldsSum4(x1: int, v1: word, x2: int, v2: word, x3: int, v3: word, x4: int, v4: word)
    requires Holds(x1, v1) && Holds(x2, v2) && Holds(x3, v3) && Holds(x4, v4)
    ensures Wrap(x1 + x2 + x3 + x4) == Wrap(v1 as int + v2 as int + v3 as int + v4 as int)
    ensures Holds(ToInt32(x1 + x2 + x3 + x4), Wrap(v1 as int + v2 as int + v3 as int + v4 as int))
  {
    hide Holds, ToInt32, Wrap;
    HoldsWrap(x1, v1);
    HoldsWrap(x2, v2);
    HoldsWrap(x3, v3);
    HoldsWrap(x4, v4);
    WrapSum(x1, v1, x2, v2);
    WrapSum(x1 + x2, v1 as int + v2 as int, x3, v3);
    WrapSum(x1 + x2 + x3, v1 as int + v2 as int + v3 as int, x4, v4);
    HoldsInt32(x1 + x2 + x3 + x4);
  }

  lemma HoldsSum5(x1: int, v1: word, x2: int, v2: word, x3: int, v3: word, x4: int, v4: word, x5: int, v5: word)
    requires Holds(x1, v1) && Holds(x2, v2) && Holds(x3, v3) && Holds(x4, v4) && Holds(x5, v5)
    ensures Holds(ToInt32(x1 + x2 + x3 + x4 + x5), Wrap(v1 as int + v2 as int + v3 as int + v4 as int + v5 as int))
  {
    hide Holds, ToInt32, Wrap;
    HoldsSum4(x1, v1, x2, v2, x3, v3, x4, v4);
    HoldsWrap(x5, v5);
    WrapSum(x1 + x2 + x3 + x4, v1 as int + v2 as int + v3 as int + v4 as int, x5, v5);
    HoldsInt32(x1 + x2 + x3 + x4 + x5);
  }

  // ------------------------------------------------------------- the loops

  /** `(64-(l+9)%64)%64`. */
  function PadBytes(l: nat): nat { (64 - (l + 9) % 64) % 64 }

  /** `m`: the message, 0x80, zeros, and the bit length in the last eight bytes. */
  method PadMessage(d: Bytes) returns (m: array<byte>)
    requires 8 * |d| < U64
    ensures fresh(m) && m[..] == Pad(d)
  {
    hide PadBytes, ToBE;
    var l := |d|;
    var pad := PadBytes(l);
    var tot := l + 1 + pad + 8;
    m := new byte[tot](_ => 0);
    forall i | 0 <= i < l {
      m[i] := d[i];
    }
    m[l] := 0x80;
    ghost var front := m[..tot - 8];
    assert front[..l] == d && front[l] == 0x80 && forall k :: l < k < tot - 8 ==> front[k] == 0;
    WriteLength(m, l * 8);
    assert m[..][..tot - 8] == front && m[..][tot - 8..] == m[tot - 8..];
    assert m[..][..l] == front[..l];
    IsPadded(d, m[..]);
  }

  /** The page's loop over the eight length bytes, least significant first. */
  method WriteLength(m: array<byte>, bl: nat)
    requires m.Length >= 8 && bl < U64
    modifies m
    ensures m[..m.Length - 8] == old(m[..m.Length - 8])
    ensures m[m.Length - 8..] == ToBE(bl, 8)
  {
    hide Pow2, ToBE;
    var tot := m.Length;
    var i := 0;
    while i < 8
      invariant 0 <= i <= 8
      invariant m[..tot - 8] == old(m[..tot - 8])
      invariant forall k :: 0 <= k < i ==> m[tot - 1 - k] == bl / Pow2(8 * k) % 256
    {
      m[tot - 1 - i] := bl / Pow2(8 * i) % 256;
      i := i + 1;
    }
    LengthBytes(bl, m[tot - 8..]);
  }

  lemma IsPadded(d: Bytes, m: Bytes)
    requires |m| == |d| + 1 + PadBytes(|d|) + 8 && 8 * |d| < U64
    requires m[..|d|] == d && m[|d|] == 0x80 && m[|m| - 8..] == ToBE(8 * |d|, 8)
    requires forall k :: |d| < k < |m| - 8 ==> m[k] == 0
    ensures m == Pad(d)
  {
    hide ToBE, ZeroBits, PadBytes;
    PadLengths(|d|);
    assert Pad(d) == d + [0x80] + Zeros(PadBytes(|d|)) + ToBE(8 * |d|, 8);
    assert m[|d| + 1..|m| - 8] == Zeros(PadBytes(|d|));
    hide Pad;
    assert m == m[..|d|] + [m[|d|]] + m[|d| + 1..|m| - 8] + m[|m| - 8..];
  }

  /** `pad` is the number of zero bytes of section 5.1.1. */
  lemma PadLengths(l: nat)
    ensures ZeroBits(8 * l) >= 7 && (ZeroBits(8 * l) - 7) / 8 == PadBytes(l)
  {
    var q, r := l / 64, l % 64;
    if r < 55 {
      DivModUnique(447 - 8 * l, 512, -q, 447 - 8 * r);
      DivModUnique(l + 9, 64, q, r + 9);
      PadValue(ZeroBits(8 * l), (l + 9) % 64, 55 - r);
    } else {
      DivModUnique(447 - 8 * l, 512, if r == 55 then -q else -q - 1, if r == 55 then 7 else 959 - 8 * r);
      DivModUnique(l + 9, 64, q + 1, r - 55);
      PadValue(ZeroBits(8 * l), (l + 9) % 64, if r == 55 then 0 else 119 - r);
    }
  }

  lemma PadValue(z: nat, y: nat, pad: nat)
    requires pad < 64 && z == 8 * pad + 7 && y < 64 && (y == 64 - pad || y == pad == 0)
    ensures (z - 7) / 8 == pad && (64 - y) % 64 == pad
  {
  }

  /** The byte of weight `256^k` of a fixed-width encoding. */
  lemma {:induction false} ToBEAt(n: nat, width: nat, k: nat)
    requires k < width
    ensures ToBE(n, width)[width - 1 - k] == n / Pow2(8 * k) % 256
  {
    if k > 0 {
      ToBEAt(n / 256, width - 1, k - 1);
      Pow2Values();
      Pow2Add(8, 8 * (k - 1));
      DivTwice(n, Pow2(8 * (k - 1)));
    }
  }

  lemma DivTwice(n: nat, q: nat)
    requires q > 0
    ensures n / (256 * q) == n / 256 / q
  {
    var s, v := n / 256, n % 256;
    var t, u := s / q, s % q;
    assert s == t * q + u;
    assert t * (256 * q) == 256 * (t * q);
    DivModUnique(n, 256 * q, t, 256 * u + v);
  }

  lemma LengthBytes(bl: nat, tail: Bytes)
    requires bl < U64 && |tail| == 8
    requires forall k :: 0 <= k < 8 ==> tail[7 - k] == bl / Pow2(8 * k) % 256
    ensures tail == ToBE(bl, 8)
  {
    forall j | 0 <= j < 8
      ensures tail[j] == ToBE(bl, 8)[j]
    {
      ToBEAt(bl, 8, 7 - j);
      assert tail[7 - (7 - j)] == bl / Pow2(8 * (7 - j)) % 256;
    }
  }

  /** `(m[i]<<24)|(m[i+1]<<16)|(m[i+2]<<8)|m[i+3]`. */
  function PackWord(p: byte, q: byte, r: byte, s: byte): int {
    BitOr(BitOr(BitOr(ShiftLeft(p, 24), ShiftLeft(q, 16)), ShiftLeft(r, 8)), s)
  }

  lemma OrWords(x: int, v: word, y: int, w: word)
    requires ToUint32(x) == v && ToUint32(y) == w
    ensures ToUint32(BitOr(x, y)) == Or(v, w)
  {
    hide Or;
    HoldsInt32(WOr(v, w));
  }

  lemma ShiftedByte(b: byte, n: nat, p: nat)
    requires p == Pow2(n) && (p == 0x100 || p == 0x1_0000 || p == 0x100_0000)
    ensures ToUint32(ShiftLeft(b, n)) == b as int * p < 0x1_0000_0000
  {
    hide Pow2, ToInt32;
    var k: nat := b;
    var v := k * p;
    assert v < 0x1_0000_0000;
    assert Wrap(k) == k && Wrap(v) == v;
    HoldsInt32(v);
  }

  lemma PackedWord(b: Bytes)
    requires |b| == 4
    ensures ToUint32(PackWord(b[0], b[1], b[2], b[3])) == BE(b)
  {
    hide Or, Pow2, BitOr, ShiftLeft, ToUint32, BE;
    Pow2Values();
    var b0: nat, b1: nat, b2: nat, b3: nat := b[0], b[1], b[2], b[3];
    var p, q, r := b0 * Pow2(24), b1 * Pow2(16), b2 * Pow2(8);
    ShiftedByte(b0, 24, 0x100_0000);
    ShiftedByte(b1, 16, 0x1_0000);
    ShiftedByte(b2, 8, 0x100);
    OrDisjoint(b0, 24, q);
    OrWords(ShiftLeft(b0, 24), p, ShiftLeft(b1, 16), q);
    OrDisjoint(b0 * 256 + b1, 16, r);
    OrWords(BitOr(ShiftLeft(b0, 24), ShiftLeft(b1, 16)), p + q, ShiftLeft(b2, 8), r);
    OrDisjoint(b0 * 0x1_0000 + b1 * 256 + b2, 8, b3);
    assert ToUint32(b3) == b3 by {
      HoldsWord(b3);
    }
    OrWords(BitOr(BitOr(ShiftLeft(b0, 24), ShiftLeft(b1, 16)), ShiftLeft(b2, 8)), p + q + r, b3, b3);
    BE4(b);
  }

  lemma BE4(b: Bytes)
    requires |b| == 4
    ensures BE(b) == b[0] as int * 0x100_0000 + b[1] as int * 0x1_0000 + b[2] as int * 0x100 + b[3] as int
  {
    assert b[..3][..2] == b[..2] && b[..2][..1] == b[..1] && b[..1][..0] == [];
    assert BE(b[..1]) == b[0];
    assert BE(b[..2]) == b[0] as int * 256 + b[1] as int;
    assert BE(b[..3]) == b[0] as int * 0x1_0000 + b[1] as int * 256 + b[2] as int;
  }

  lemma PageSchedule(block: Bytes, j: nat)
    requires |block| == 64 && 16 <= j < 64
    ensures var w16: int, s0, w7: int, s1 := Schedule(block, j - 16), LowS0(Schedule(block, j - 15)),
                Schedule(block, j - 7), LowS1(Schedule(block, j - 2));
            && Small(s0) && Small(s1)
            && ToUint32(ToInt32(w16 + s0 + w7 + s1)) == Schedule(block, j)
  {
    hide LowS0, LowS1, SmallSigma0, SmallSigma1, ToInt32;
    var w16, w15, w7, w2 := Schedule(block, j - 16), Schedule(block, j - 15), Schedule(block, j - 7), Schedule(block, j - 2);
    HoldsLowSigma0(w15, w15);
    HoldsLowSigma1(w2, w2);
    HoldsSum4(w16, w16, LowS0(w15), SmallSigma0(w15), w7, w7, LowS1(w2), SmallSigma1(w2));
  }

  /** The first sixteen words of the schedule of the block that starts at `m[i]`. */
  method LoadWords(m: array<byte>, i: nat, w: array<word>)
    requires i + 64 <= m.Length && w.Length == 64
    modifies w
    ensures forall t :: 0 <= t < 16 ==> w[t] == Schedule(m[i..i + 64], t)
  {
    hide ToUint32, PackWord, BE;
    ghost var block := m[i..i + 64];
    var j := 0;
    while j < 16
      invariant 0 <= j <= 16
      invariant forall t :: 0 <= t < j ==> w[t] == Schedule(block, t)
    {
      ghost var four := block[4 * j..4 * j + 4];
      assert forall k :: 0 <= k < 4 ==> four[k] == m[i + j * 4 + k];
      assert four == [m[i + j * 4], m[i + j * 4 + 1], m[i + j * 4 + 2], m[i + j * 4 + 3]];
      PackedWord(four);
      assert Schedule(block, j) == BE(four);
      w[j] := ToUint32(PackWord(m[i + j * 4], m[i + j * 4 + 1], m[i + j * 4 + 2], m[i + j * 4 + 3]));
      j := j + 1;
    }
  }

  /** The remaining forty-eight words. */
  method ExtendWords(w: array<word>, ghost block: Bytes)
    requires w.Length == 64 && |block| == 64
    requires forall t :: 0 <= t < 16 ==> w[t] == Schedule(block, t)
    modifies w
    ensures forall t :: 0 <= t < 64 ==> w[t] == Schedule(block, t)
  {
    hide LowS0, LowS1, ToInt32, ToUint32, Schedule;
    var j := 16;
    while j < 64
      invariant 16 <= j <= 64
      invariant forall t :: 0 <= t < j ==> w[t] == Schedule(block, t)
    {
      var w15, w2 := w[j - 15], w[j - 2];
      var s0, s1 := LowS0(w15), LowS1(w2);
      PageSchedule(block, j);
      w[j] := ToUint32(ToInt32(Plus(Plus(Plus(w[j - 16], s0), w[j - 7]), s1)));
      j := j + 1;
    }
  }

  /** One round on the page's variables, which hold the variables of FIPS 180-4. */
  lemma PageRound(v: Vars, k: word, w: word, a: int, b: int, c: int, d: int, e: int, f: int, g: int, h: int)
    requires Holds(a, v.a) && Holds(b, v.b) && Holds(c, v.c) && Holds(d, v.d)
    requires Holds(e, v.e) && Holds(f, v.f) && Holds(g, v.g) && Holds(h, v.h)
    ensures var r := Round(v, k, w);
            r.b == v.a && r.c == v.b && r.d == v.c && r.f == v.e && r.g == v.f && r.h == v.g
    ensures Small(S1(e)) && Small(Choose(e, f, g)) && Small(S0(a)) && Small(Majority(a, b, c))
    ensures var t1 := ToInt32(h + S1(e) + Choose(e, f, g) + k + w);
            var t2 := ToInt32(S0(a) + Majority(a, b, c));
            Small(t1) && Small(t2)
            && Holds(ToInt32(d + t1), Round(v, k, w).e) && Holds(ToInt32(t1 + t2), Round(v, k, w).a)
  {
    hide S0, S1, Choose, Majority, BigSigma0, BigSigma1, Ch, Maj, ToInt32, Wrap;
    HoldsSigmas(a, v.a);
    HoldsSigmas(e, v.e);
    HoldsChooseMajority(e, v.e, f, v.f, g, v.g);
    HoldsChooseMajority(a, v.a, b, v.b, c, v.c);
    HoldsWord(k);
    HoldsWord(w);
    HoldsSum5(h, v.h, S1(e), BigSigma1(v.e), Choose(e, f, g), Ch(v.e, v.f, v.g), k, k, w, w);
    HoldsSum2(S0(a), BigSigma0(v.a), Majority(a, b, c), Maj(v.a, v.b, v.c));
    var t1, t2 := ToInt32(h + S1(e) + Choose(e, f, g) + k + w), ToInt32(S0(a) + Majority(a, b, c));
    var u1 := Wrap(v.h as int + BigSigma1(v.e) as int + Ch(v.e, v.f, v.g) as int + k as int + w as int);
    var u2 := Wrap(BigSigma0(v.a) as int + Maj(v.a, v.b, v.c) as int);
    HoldsSum2(d, v.d, t1, u1);
    HoldsSum2(t1, u1, t2, u2);
  }

  /** The sixty-four rounds and the final additions for one block. */
  method CompressBlock(h: array<int>, ghost hs: seq<word>, w: array<word>, ghost block: Bytes)
    requires h.Length == 8 && |hs| == 8 && |block| == 64 && w.Length == 64
    requires forall i :: 0 <= i < 8 ==> Holds(h[i], hs[i])
    requires forall t :: 0 <= t < 64 ==> w[t] == Schedule(block, t)
    modifies h
    ensures forall i :: 0 <= i < 8 ==> Holds(h[i], Compress(hs, block)[i])
  {
    hide S0, S1, Choose, Majority, ToInt32, Round, K, Schedule, Wrap;
    var a, b, c, dd := h[0], h[1], h[2], h[3];
    var e, f, g, hh := h[4], h[5], h[6], h[7];
    ghost var v0 := Vars(hs[0], hs[1], hs[2], hs[3], hs[4], hs[5], hs[6], hs[7]);
    var j := 0;
    while j < 64
      invariant 0 <= j <= 64
      invariant forall i :: 0 <= i < 8 ==> Holds(h[i], hs[i])
      invariant var v := Rounds(v0, block, j);
        && Holds(a, v.a) && Holds(b, v.b) && Holds(c, v.c) && Holds(dd, v.d)
        && Holds(e, v.e) && Holds(f, v.f) && Holds(g, v.g) && Holds(hh, v.h)
    {
      assert Rounds(v0, block, j + 1) == Round(Rounds(v0, block, j), K(j), w[j]);
      PageRound(Rounds(v0, block, j), K(j), w[j], a, b, c, dd, e, f, g, hh);
      var t1 := ToInt32(Plus(Plus(Plus(Plus(hh, S1(e)), Choose(e, f, g)), K(j)), w[j]));
      var t2 := ToInt32(Plus(S0(a), Majority(a, b, c)));
      hh := g; g := f; f := e; e := ToInt32(Plus(dd, t1));
      dd := c; c := b; b := a; a := ToInt32(Plus(t1, t2));
      j := j + 1;
    }
    ghost var v := Rounds(v0, block, 64);
    HoldsSum2(h[0], hs[0], a, v.a);
    HoldsSum2(h[1], hs[1], b, v.b);
    HoldsSum2(h[2], hs[2], c, v.c);
    HoldsSum2(h[3], hs[3], dd, v.d);
    HoldsSum2(h[4], hs[4], e, v.e);
    HoldsSum2(h[5], hs[5], f, v.f);
    HoldsSum2(h[6], hs[6], g, v.g);
    HoldsSum2(h[7], hs[7], hh, v.h);
    h[0] := ToInt32(Plus(h[0], a)); h[1] := ToInt32(Plus(h[1], b));
    h[2] := ToInt32(Plus(h[2], c)); h[3] := ToInt32(Plus(h[3], dd));
    h[4] := ToInt32(Plus(h[4], e)); h[5] := ToInt32(Plus(h[5], f));
    h[6] := ToInt32(Plus(h[6], g)); h[7] := ToInt32(Plus(h[7], hh));
  }

  /** The bytes of a word, by weight. */
  lemma ToBE4(v: word)
    ensures ToBE(v, 4) == [v / 0x100_0000 % 256, v / 0x1_0000 % 256, v / 0x100 % 256, v % 256]
  {
    assert ToBE(v / 0x1_0000, 2) == [v / 0x1_0000 / 256 % 256, v / 0x1_0000 % 256];
    assert ToBE(v / 0x100, 3) == ToBE(v / 0x1_0000, 2) + [v / 0x100 % 256];
  }

  lemma LowByte(x: int, v: word)
    requires ToUint32(x) == v
    ensures BitAnd(x, 255) == v % 256
  {
    hide And, Pow2;
    Pow2Values();
    AndMask(v, 8);
  }

  /** `o[i*4] .. o[i*4+3]` for one word of the hash value. */
  lemma WordBytes(x: int, v: word)
    requires Holds(x, v)
    ensures [ShiftRight(x, 24) % 256, BitAnd(ShiftRight(x, 16), 255) % 256,
             BitAnd(ShiftRight(x, 8), 255) % 256, BitAnd(x, 255) % 256] == ToBE(v, 4)
  {
    hide BitAnd, Pow2, ToBE;
    Pow2Values();
    LowByte(ShiftRight(x, 16), v / 0x1_0000);
    LowByte(ShiftRight(x, 8), v / 0x100);
    LowByte(x, v);
    ToBE4(v);
  }

  method OutputBytes(h: array<int>, ghost hs: seq<word>) returns (o: array<byte>)
    requires h.Length == 8 && |hs| == 8
    requires forall i :: 0 <= i < 8 ==> Holds(h[i], hs[i])
    ensures fresh(o) && o[..] == Digest(hs)
  {
    hide Holds, ToBE, BitAnd, ShiftRight;
    o := new byte[32];
    var i := 0;
    while i < 8
      invariant 0 <= i <= 8
      invariant o[..4 * i] == Digest(hs[..i])
    {
      ghost var before := o[..4 * i];
      WordBytes(h[i], hs[i]);
      o[i * 4] := ShiftRight(h[i], 24) % 256;
      o[i * 4 + 1] := BitAnd(ShiftRight(h[i], 16), 255) % 256;
      o[i * 4 + 2] := BitAnd(ShiftRight(h[i], 8), 255) % 256;
      o[i * 4 + 3] := BitAnd(h[i], 255) % 256;
      assert hs[..i + 1][..i] == hs[..i];
      assert o[..4 * (i + 1)] == before + ToBE(hs[i], 4);
      i := i + 1;
    }
    assert hs[..8] == hs && o[..32] == o[..];
  }

  lemma NextBlock(padded: Bytes, n: nat)
    requires 64 * (n + 1) <= |padded|
    ensures HashBlocks(padded, n + 1) == Compress(HashBlocks(padded, n), padded[64 * n..64 * n + 64])
  {
  }

  /** `h` holds the hash value after `n` blocks. */
  ghost predicate After(h: array<int>, padded: Bytes, n: nat)
    requires h.Length == 8 && 64 * n <= |padded|
    reads h
  {
    forall k :: 0 <= k < 8 ==> Holds(h[k], HashBlocks(padded, n)[k])
  }

  /** One iteration of the loop over the blocks. */
  method HashBlock(m: array<byte>, i: nat, h: array<int>, w: array<word>, ghost n: nat)
    requires i == 64 * n && i + 64 <= m.Length && h.Length == 8 && w.Length == 64
    requires After(h, m[..], n)
    modifies h, w
    ensures m[..] == old(m[..]) && After(h, m[..], n + 1)
  {
    hide Holds, Compress, Schedule, HashBlocks;
    LoadWords(m, i, w);
    ExtendWords(w, m[i..i + 64]);
    CompressBlock(h, HashBlocks(m[..], n), w, m[i..i + 64]);
    assert m[..][i..i + 64] == m[i..i + 64];
    NextBlock(m[..], n);
  }

  /** The loop over the blocks of the padded message. */
  method HashPadded(m: array<byte>, h: array<int>, w: array<word>, ghost blocks: nat)
    requires m.Length == 64 * blocks && h.Length == 8 && w.Length == 64
    requires After(h, m[..], 0)
    modifies h, w
    ensures m[..] == old(m[..]) && After(h, m[..], blocks)
  {
    hide After;
    var i := 0;
    ghost var n := 0;
    while i < m.Length
      invariant i == 64 * n <= m.Length && m[..] == old(m[..])
      invariant After(h, m[..], n)
      decreases m.Length - i
    {
      HashBlock(m, i, h, w, n);
      i, n := i + 64, n + 1;
    }
  }

  /** The page's `sha256` computes SHA-256 of every message. */
  method PageHash(d: Bytes) returns (o: array<byte>)
    requires 8 * |d| < U64
    ensures fresh(o) && o[..] == Hash(d)
  {
    hide Pad, Digest, Holds, HashBlocks;
    var h := InitialHash(Pad(d));
    var m := PadMessage(d);
    var w := new word[64];
    HashPadded(m, h, w, m.Length / 64);
    o := OutputBytes(h, HashBlocks(Pad(d), m.Length / 64));
  }

  method InitialHash(ghost padded: Bytes) returns (h: array<int>)
    ensures fresh(h) && h.Length == 8 && After(h, padded, 0)
  {
    h := new int[8];
    h[0], h[1], h[2], h[3] := 0x6a09e667, 0xbb67ae85, 0x3c6ef372, 0xa54ff53a;
    h[4], h[5], h[6], h[7] := 0x510e527f, 0x9b05688c, 0x1f83d9ab, 0x5be0cd19;
  }
}
