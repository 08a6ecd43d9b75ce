/** The proof-of-work test on a hash: the filter's `hasLeadingZeroBits` (shared
    by `powcli`) and the page's `hasZ`. */
module PowCheck {
  import opened GoBytes
  import opened Bits

  /** Bit `i` of `h`, counting from the most significant bit of byte 0, exists and is 0. */
  predicate ZeroAt(h: Bytes, i: nat) { i / 8 < |h| && !Bit(h[i / 8], 7 - i % 8) }

  predicate LeadingZeros(h: Bytes, bits: nat) { forall i :: 0 <= i < bits ==> ZeroAt(h, i) }

  method HasLeadingZeroBits(hash: Bytes, bits: nat) returns (r: bool)
    ensures r <==> LeadingZeros(hash, bits)
  {
    if bits == 0 {
      return true;
    }
    var i := 0;
    while i < bits
      invariant 0 <= i <= bits && LeadingZeros(hash, i)
    {
      var byteIdx := i / 8;
      if byteIdx >= |hash| {
        assert !ZeroAt(hash, i);
        return false;
      }
      var bitIdx := 7 - i % 8;
      AndBit(hash[byteIdx], bitIdx);
      if And(hash[byteIdx], Pow2(bitIdx)) != 0 {
        assert !ZeroAt(hash, i);
        return false;
      }
      i := i + 1;
    }
    return true;
  }

  /** The page reads past the hash as `undefined`, and `undefined & x` is 0. */
  method HasZ(h: Bytes, b: nat) returns (r: bool)
    ensures r <==> LeadingZeros(h, if b <= 8 * |h| then b else 8 * |h|)
  {
    if b == 0 {
      return true;
    }
    ghost var top := if b <= 8 * |h| then b else 8 * |h|;
    var i := 0;
    while i < b
      invariant 0 <= i <= b && LeadingZeros(h, if i <= top then i else top)
    {
      var bi, bt := i / 8, 7 - i % 8;
      if bi < |h| {
        AndBit(h[bi], bt);
        if And(h[bi], Pow2(bt)) != 0 {
          assert !ZeroAt(h, i);
          return false;
        }
      }
      i := i + 1;
    }
    return true;
  }

  /** On a 32-byte hash the two tests agree up to 256 bits; past that they
      disagree on the all-zero hash and on no other. */
  lemma TestsAgree(h: Bytes, b: nat)
    requires |h| == 32
    ensures (LeadingZeros(h, b) <==> LeadingZeros(h, if b <= 256 then b else 256))
            <==> (b <= 256 || BE(h) != 0)
  {
    LeadingZerosIsBound(h, b);
    LeadingZerosIsBound(h, if b <= 256 then b else 256);
  }

  /** Clearing bits from the top of a byte bounds its value. */
  lemma {:induction false} TopBitsClear(x: byte, b: nat)
    requires b <= 8
    ensures (forall i :: 0 <= i < b ==> ZeroAt([x], i)) <==> x < Pow2(8 - b)
  {
    if b == 0 {
      Pow2Values();
    } else {
      TopBitsClear(x, b - 1);
      var p := Pow2(8 - b);
      assert Pow2(9 - b) == 2 * p;
      if x < 2 * p {
        DivModUnique(x, p, if x < p then 0 else 1, if x < p then x else x - p);
      }
      assert x < 2 * p ==> (ZeroAt([x], b - 1) <==> x < p);
    }
  }

  lemma ZeroAtShift(x: byte, t: Bytes, i: nat)
    ensures ZeroAt([x] + t, i + 8) <==> ZeroAt(t, i)
    ensures i < 8 ==> (ZeroAt([x] + t, i) <==> ZeroAt([x], i))
  {
    assert (i + 8) / 8 == i / 8 + 1 && (i + 8) % 8 == i % 8;
  }

  /** `x * p + r` against `q * p`, for a remainder `r < p`. */
  lemma CompareHigh(x: nat, p: nat, r: nat, q: nat)
    requires r < p
    ensures x * p + r < q * p <==> x < q
  {
    Distribute(q, x, p);
    if x < q {
      Scale(q - x, p);
    } else {
      assert (x - q) * p >= 0;
      Distribute(x, q, p);
    }
  }

  /** The bit test is a bound on the hash read as a big-endian number. */
  lemma {:induction false} LeadingZerosIsBound(h: Bytes, b: nat)
    ensures LeadingZeros(h, b) <==> b <= 8 * |h| && BE(h) < Pow2(8 * |h| - b)
  {
    if |h| == 0 {
      if b > 0 {
        assert !ZeroAt(h, 0);
      }
    } else {
      var x, t := h[0], h[1..];
      assert h == [x] + t;
      var p := Pow2(8 * |t|);
      BEConcat([x], t);
      assert BE([x]) == x;
      BEBound(t);
      forall i: nat
        ensures ZeroAt(h, i + 8) <==> ZeroAt(t, i)
        ensures i < 8 ==> (ZeroAt(h, i) <==> ZeroAt([x], i))
      {
        ZeroAtShift(x, t, i);
      }
      if b <= 8 {
        TopBitsClear(x, b);
        Pow2Add(8 - b, 8 * |t|);
        CompareHigh(x, p, BE(t), Pow2(8 - b));
        assert LeadingZeros(h, b) <==> x < Pow2(8 - b);
      } else {
        LeadingZerosIsBound(t, b - 8);
        FirstByteZero(x, t, b);
        if b <= 8 * |h| {
          Pow2Mono(8 * |h| - b, 8 * |t|);
        }
        Scale(x, p);
      }
    }
  }

  lemma FirstByteZero(x: byte, t: Bytes, b: nat)
    requires b > 8
    ensures LeadingZeros([x] + t, b) <==> x == 0 && LeadingZeros(t, b - 8)
  {
    hide ZeroAt;
    var h := [x] + t;
    forall i: nat
      ensures ZeroAt(h, i + 8) <==> ZeroAt(t, i)
      ensures i < 8 ==> (ZeroAt(h, i) <==> ZeroAt([x], i))
    {
      ZeroAtShift(x, t, i);
    }
    TopBitsClear(x, 8);
    assert Pow2(0) == 1;
    forall i | 8 <= i < b
      ensures ZeroAt(h, i) <==> ZeroAt(t, i - 8)
    {
      var j := i - 8;
      assert ZeroAt(h, j + 8) <==> ZeroAt(t, j);
    }
    if LeadingZeros(h, b) {
      forall i | 0 <= i < b - 8
        ensures ZeroAt(t, i)
      {
        assert ZeroAt(h, i + 8);
      }
    }
  }

  /** Asking for more bits accepts fewer hashes. */
  lemma MoreBitsFewerHashes(h: Bytes, b: nat, c: nat)
    requires b <= c && LeadingZeros(h, c)
    ensures LeadingZeros(h, b)
  {
  }
}
