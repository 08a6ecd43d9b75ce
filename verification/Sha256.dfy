/** SHA-256 as FIPS 180-4 defines it. Section numbers are those of that standard. */
module Sha256 {
  import opened GoBytes
  import opened Bits

  type word = n: int | 0 <= n < 0x1_0000_0000

  /** Reduction modulo 2^32: every `+` of the standard is followed by it. */
  function Wrap(x: int): word { x % 0x1_0000_0000 }

  // ---------------------------------- word operations (sections 2.2.2 and 3.2)

  function WAnd(x: word, y: word): word { Pow2Values(); Bounds(x, y, 32); And(x, y) }

  function WOr(x: word, y: word): word { Pow2Values(); Bounds(x, y, 32); Or(x, y) }

  function WXor(x: word, y: word): word { Pow2Values(); Bounds(x, y, 32); Xor(x, y) }

  function WNot(x: word): word { 0xffff_ffff - x }

  function Shl(x: word, n: nat): word { Wrap(x * Pow2(n)) }

  function Shr(x: word, n: nat): word { DivBound(x, Pow2(n)); x / Pow2(n) }

  function Rotr(x: word, n: nat): word
    requires n < 32
  {
    WOr(Shr(x, n), Shl(x, 32 - n))
  }

  // ----------------------------------------------- functions of section 4.1.2

  function Ch(x: word, y: word, z: word): word { WXor(WAnd(x, y), WAnd(WNot(x), z)) }

  function Maj(x: word, y: word, z: word): word { WXor(WXor(WAnd(x, y), WAnd(x, z)), WAnd(y, z)) }

  function BigSigma0(x: word): word { WXor(WXor(Rotr(x, 2), Rotr(x, 13)), Rotr(x, 22)) }

  function BigSigma1(x: word): word { WXor(WXor(Rotr(x, 6), Rotr(x, 11)), Rotr(x, 25)) }

  function SmallSigma0(x: word): word { WXor(WXor(Rotr(x, 7), Rotr(x, 18)), Shr(x, 3)) }

  function SmallSigma1(x: word): word { WXor(WXor(Rotr(x, 17), Rotr(x, 19)), Shr(x, 10)) }

  // ----------------------------------------- constants (sections 4.2.2, 5.3.3)

  /** The round constants, in the order of section 4.2.2. */
  function K(t: nat): word
    requires t < 64
  {
    var row: seq<word> :=
      if t < 8 then [0x428a2f98, 0x71374491, 0xb5c0fbcf, 0xe9b5dba5, 0x3956c25b, 0x59f111f1, 0x923f82a4, 0xab1c5ed5]
      else if t < 16 then [0xd807aa98, 0x12835b01, 0x243185be, 0x550c7dc3, 0x72be5d74, 0x80deb1fe, 0x9bdc06a7, 0xc19bf174]
      else if t < 24 then [0xe49b69c1, 0xefbe4786, 0x0fc19dc6, 0x240ca1cc, 0x2de92c6f, 0x4a7484aa, 0x5cb0a9dc, 0x76f988da]
      else if t < 32 then [0x983e5152, 0xa831c66d, 0xb00327c8, 0xbf597fc7, 0xc6e00bf3, 0xd5a79147, 0x06ca6351, 0x14292967]
      else if t < 40 then [0x27b70a85, 0x2e1b2138, 0x4d2c6dfc, 0x53380d13, 0x650a7354, 0x766a0abb, 0x81c2c92e, 0x92722c85]
      else if t < 48 then [0xa2bfe8a1, 0xa81a664b, 0xc24b8b70, 0xc76c51a3, 0xd192e819, 0xd6990624, 0xf40e3585, 0x106aa070]
      else if t < 56 then [0x19a4c116, 0x1e376c08, 0x2748774c, 0x34b0bcb5, 0x391c0cb3, 0x4ed8aa4a, 0x5b9cca4f, 0x682e6ff3]
      else [0x748f82ee, 0x78a5636f, 0x84c87814, 0x8cc70208, 0x90befffa, 0xa4506ceb, 0xbef9a3f7, 0xc67178f2];
    row[t % 8]
  }

  const H0: seq<word> := [
    0x6a09e667, 0xbb67ae85, 0x3c6ef372, 0xa54ff53a, 0x510e527f, 0x9b05688c, 0x1f83d9ab, 0x5be0cd19]

  /** The first sixty-four primes. */
  function Prime(t: nat): nat
    requires t < 64
  {
    var row: seq<nat> :=
      if t < 8 then [2, 3, 5, 7, 11, 13, 17, 19]
      else if t < 16 then [23, 29, 31, 37, 41, 43, 47, 53]
      else if t < 24 then [59, 61, 67, 71, 73, 79, 83, 89]
      else if t < 32 then [97, 101, 103, 107, 109, 113, 127, 131]
      else if t < 40 then [137, 139, 149, 151, 157, 163, 167, 173]
      else if t < 48 then [179, 181, 191, 193, 197, 199, 211, 223]
      else if t < 56 then [227, 229, 233, 239, 241, 251, 257, 263]
      else [269, 271, 277, 281, 283, 293, 307, 311];
    row[t % 8]
  }

  /** The integer part of the cube root of a prime of the table. */
  function CubeRoot(p: nat): (r: nat)
    requires p < 343
    ensures r * r * r <= p < (r + 1) * (r + 1) * (r + 1)
  {
    if p < 1 then 0 else if p < 8 then 1 else if p < 27 then 2 else if p < 64 then 3
    else if p < 125 then 4 else if p < 216 then 5 else 6
  }

  /** `k` is the first 32 bits of the fractional part of the cube root of `p`. */
  predicate CubeRootFraction(p: nat, k: word) {
    p < 343 &&
    var r := CubeRoot(p) * 0x1_0000_0000 + k;
    r * r * r <= p * 0x1_0000_0000_0000_0000_0000_0000 < (r + 1) * (r + 1) * (r + 1)
  }

  /** The integer part of the square root of one of the first eight primes. */
  function SquareRoot(p: nat): (r: nat)
    requires p < 25
    ensures r * r <= p < (r + 1) * (r + 1)
  {
    if p < 1 then 0 else if p < 4 then 1 else if p < 9 then 2 else if p < 16 then 3 else 4
  }

  /** `h` is the first 32 bits of the fractional part of the square root of `p`. */
  predicate SquareRootFraction(p: nat, h: word) {
    p < 25 &&
    var r := SquareRoot(p) * 0x1_0000_0000 + h;
    r * r <= p * 0x1_0000_0000_0000_0000 < (r + 1) * (r + 1)
  }

  /** Section 5.3.3 defines the initial words by the square roots of the first
      eight primes. */
  lemma InitialWordsAreSquareRoots(t: nat)
    requires t < 8
    ensures SquareRootFraction(Prime(t), H0[t])
  {
    if t < 4 {
      InitialLow(t);
    } else {
      InitialHigh(t);
    }
  }

  lemma InitialLow(t: nat) requires t < 4 ensures SquareRootFraction(Prime(t), H0[t]) {}

  lemma InitialHigh(t: nat) requires 4 <= t < 8 ensures SquareRootFraction(Prime(t), H0[t]) {}

  lemma ConstantsRow0(t: nat) requires 0 <= t < 8 ensures CubeRootFraction(Prime(t), K(t)) {}

  lemma ConstantsRow1(t: nat) requires 8 <= t < 16 ensures CubeRootFraction(Prime(t), K(t)) {}

  lemma ConstantsRow2(t: nat) requires 16 <= t < 24 ensures CubeRootFraction(Prime(t), K(t)) {}

  lemma ConstantsRow3(t: nat) requires 24 <= t < 32 ensures CubeRootFraction(Prime(t), K(t)) {}

  lemma ConstantsRow4(t: nat) requires 32 <= t < 40 ensures CubeRootFraction(Prime(t), K(t)) {}

  lemma ConstantsRow5(t: nat) requires 40 <= t < 48 ensures CubeRootFraction(Prime(t), K(t)) {}

  lemma ConstantsRow6(t: nat) requires 48 <= t < 56 ensures CubeRootFraction(Prime(t), K(t)) {}

  lemma ConstantsRow7(t: nat) requires 56 <= t < 64 ensures CubeRootFraction(Prime(t), K(t)) {}

  /** Section 4.2.2 defines the round constants by the cube roots of the first
      sixty-four primes; the table written in the page is that one. */
  lemma RoundConstantsAreCubeRoots(t: nat)
    requires t < 64
    ensures CubeRootFraction(Prime(t), K(t))
  {
    if t < 8 {
      ConstantsRow0(t);
    } else if t < 16 {
      ConstantsRow1(t);
    } else if t < 24 {
      ConstantsRow2(t);
    } else if t < 32 {
      ConstantsRow3(t);
    } else if t < 40 {
      ConstantsRow4(t);
    } else if t < 48 {
      ConstantsRow5(t);
    } else if t < 56 {
      ConstantsRow6(t);
    } else {
      ConstantsRow7(t);
    }
  }

  // ----------------------------------------------- padding (section 5.1.1)

  /** The number of zero bits: the only, hence least, `z` below 512 with `l + 1 + z` congruent to 448 mod 512. */
  function ZeroBits(l: nat): (z: nat)
    ensures (l + 1 + z) % 512 == 448
    ensures z < 512
  {
    (447 - l) % 512
  }

  lemma WholeBytes(n: nat, z: nat)
    requires (8 * n + 1 + z) % 512 == 448
    ensures z >= 7 && z % 8 == 7 && (n + 1 + (z - 7) / 8 + 8) % 64 == 0
  {
    var q := (8 * n + 1 + z) / 512;
    var r := 64 * q + 55 - n;
    assert z == 8 * r + 7;
    assert z / 8 == r && z % 8 == 7;
    assert n + 1 + r + 8 == 64 * (q + 1);
  }

  /** A one bit, `ZeroBits` zero bits (seven of them in the byte 0x80), and the
      64-bit length in bits. */
  function Pad(msg: Bytes): (p: Bytes)
    ensures |p| % 64 == 0 && |p| > 0
  {
    var l := 8 * |msg|;
    var z := ZeroBits(l);
    WholeBytes(|msg|, z);
    msg + [0x80] + Zeros((z - 7) / 8) + ToBE(l % U64, 8)
  }

  // --------------------------------------------- computation (section 6.2.2)

  datatype Vars = Vars(a: word, b: word, c: word, d: word, e: word, f: word, g: word, h: word)

  function Schedule(block: Bytes, t: nat): word
    requires |block| == 64 && t < 64
  {
    if t < 16 then BEBound(block[4 * t..4 * t + 4]); Pow2Values(); BE(block[4 * t..4 * t + 4])
    else Wrap(SmallSigma1(Schedule(block, t - 2)) as int + Schedule(block, t - 7) as int
              + SmallSigma0(Schedule(block, t - 15)) as int + Schedule(block, t - 16) as int)
  }

  function Round(v: Vars, k: word, w: word): Vars {
    var t1 := Wrap(v.h as int + BigSigma1(v.e) as int + Ch(v.e, v.f, v.g) as int + k as int + w as int);
    var t2 := Wrap(BigSigma0(v.a) as int + Maj(v.a, v.b, v.c) as int);
    Vars(Wrap(t1 as int + t2 as int), v.a, v.b, v.c, Wrap(v.d as int + t1 as int), v.e, v.f, v.g)
  }

  function Rounds(v: Vars, block: Bytes, t: nat): Vars
    requires |block| == 64 && t <= 64
  {
    if t == 0 then v
    else Round(Rounds(v, block, t - 1), K(t - 1), Schedule(block, t - 1))
  }

  function Compress(h: seq<word>, block: Bytes): (r: seq<word>)
    requires |h| == 8 && |block| == 64
    ensures |r| == 8
  {
    var v := Rounds(Vars(h[0], h[1], h[2], h[3], h[4], h[5], h[6], h[7]), block, 64);
    [Wrap(h[0] as int + v.a as int), Wrap(h[1] as int + v.b as int), Wrap(h[2] as int + v.c as int), Wrap(h[3] as int + v.d as int),
     Wrap(h[4] as int + v.e as int), Wrap(h[5] as int + v.f as int), Wrap(h[6] as int + v.g as int), Wrap(h[7] as int + v.h as int)]
  }

  /** The hash value after the first `n` blocks of the padded message. */
  function HashBlocks(padded: Bytes, n: nat): (h: seq<word>)
    requires 64 * n <= |padded|
    ensures |h| == 8
  {
    if n == 0 then H0
    else Compress(HashBlocks(padded, n - 1), padded[64 * (n - 1)..64 * n])
  }

  /** The words of a hash value, each most significant byte first. */
  function Digest(h: seq<word>): (d: Bytes)
    ensures |d| == 4 * |h|
  {
    if |h| == 0 then [] else Digest(h[..|h| - 1]) + ToBE(h[|h| - 1], 4)
  }

  /** SHA-256 of a message. */
  function Hash(msg: Bytes): (d: Bytes)
    ensures |d| == 32
  {
    var p := Pad(msg);
    Digest(HashBlocks(p, |p| / 64))
  }

  // ------------------------------------------------- the functions, bit by bit

  lemma RotrBit(x: word, n: nat, k: nat)
    requires 0 < n < 32 && k < 32
    ensures Bit(Rotr(x, n), k) <==> Bit(x, (k + n) % 32)
    ensures Bit(Shr(x, n), k) <==> k + n < 32 && Bit(x, k + n)
  {
    hide Bit, Or;
    BitsOf(Shr(x, n), Shl(x, 32 - n), k);
    ShiftBits(x, n, k);
  }

  lemma ShiftBits(x: word, n: nat, k: nat)
    requires 0 < n < 32 && k < 32
    ensures Bit(Shr(x, n), k) <==> k + n < 32 && Bit(x, k + n)
    ensures Bit(Shl(x, 32 - n), k) <==> k >= 32 - n && Bit(x, k + n - 32)
  {
    hide Bit, Shl, Shr;
    ShrIsDiv(x, n);
    BitShifted(x, n, Shr(x, n), k);
    HighBits(x, k + n);
    ShlBits(x, 32 - n, k);
  }

  lemma ShrIsDiv(x: word, n: nat)
    ensures Shr(x, n) == x / Pow2(n)
  {
  }

  lemma HighBits(x: word, k: nat)
    ensures Bit(x, k) ==> k < 32
  {
    hide Bit;
    Pow2Values();
    BitReduced(x, 32, x, k);
  }

  lemma ShlBits(x: word, n: nat, k: nat)
    requires k < 32
    ensures Bit(Shl(x, n), k) <==> k >= n && Bit(x, k - n)
  {
    hide Bit, Pow2;
    var y := x * Pow2(n);
    assert y >= 0 by {
      Scale(x, Pow2(n));
    }
    BitScaled(x, n, y, k);
    Pow2Values();
    BitReduced(y, 32, Shl(x, n), k);
  }

  lemma XorOfThree(x: word, y: word, z: word, k: nat)
    ensures Bit(WXor(WXor(x, y), z), k) <==> (Bit(x, k) != Bit(y, k)) != Bit(z, k)
  {
    BitsOf(x, y, k);
    BitsOf(WXor(x, y), z, k);
  }

  /** The six functions of section 4.1.2, bit by bit: the choice, the majority, and
      which bits of a word each of the sums adds up. */
  lemma FunctionBits(x: word, y: word, z: word, k: nat)
    requires k < 32
    ensures Bit(Ch(x, y, z), k) <==> if Bit(x, k) then Bit(y, k) else Bit(z, k)
    ensures Bit(Maj(x, y, z), k) <==> if Bit(x, k) == Bit(y, k) then Bit(x, k) else Bit(z, k)
    ensures Bit(BigSigma0(x), k) <==> (Bit(x, (k + 2) % 32) != Bit(x, (k + 13) % 32)) != Bit(x, (k + 22) % 32)
    ensures Bit(BigSigma1(x), k) <==> (Bit(x, (k + 6) % 32) != Bit(x, (k + 11) % 32)) != Bit(x, (k + 25) % 32)
    ensures Bit(SmallSigma0(x), k)
            <==> (Bit(x, (k + 7) % 32) != Bit(x, (k + 18) % 32)) != (k + 3 < 32 && Bit(x, k + 3))
    ensures Bit(SmallSigma1(x), k)
            <==> (Bit(x, (k + 17) % 32) != Bit(x, (k + 19) % 32)) != (k + 10 < 32 && Bit(x, k + 10))
  {
    ChoiceBits(x, y, z, k);
    hide Ch, Maj, Bit, Rotr, Shr, WXor;
    XorOfThree(Rotr(x, 2), Rotr(x, 13), Rotr(x, 22), k);
    XorOfThree(Rotr(x, 6), Rotr(x, 11), Rotr(x, 25), k);
    XorOfThree(Rotr(x, 7), Rotr(x, 18), Shr(x, 3), k);
    XorOfThree(Rotr(x, 17), Rotr(x, 19), Shr(x, 10), k);
    RotrBit(x, 2, k);
    RotrBit(x, 13, k);
    RotrBit(x, 22, k);
    RotrBit(x, 6, k);
    RotrBit(x, 11, k);
    RotrBit(x, 25, k);
    RotrBit(x, 7, k);
    RotrBit(x, 18, k);
    RotrBit(x, 3, k);
    RotrBit(x, 17, k);
    RotrBit(x, 19, k);
    RotrBit(x, 10, k);
  }

  lemma ChoiceBits(x: word, y: word, z: word, k: nat)
    requires k < 32
    ensures Bit(Ch(x, y, z), k) <==> if Bit(x, k) then Bit(y, k) else Bit(z, k)
    ensures Bit(Maj(x, y, z), k) <==> if Bit(x, k) == Bit(y, k) then Bit(x, k) else Bit(z, k)
  {
    hide Bit, And, Xor;
    Pow2Values();
    BitComplement(x, 32, WNot(x), k);
    BitsOf(x, y, k);
    BitsOf(x, z, k);
    BitsOf(y, z, k);
    BitsOf(WNot(x), z, k);
    BitsOf(WAnd(x, y), WAnd(WNot(x), z), k);
    XorOfThree(WAnd(x, y), WAnd(x, z), WAnd(y, z), k);
  }
}
