/** Go strings and byte slices as sequences of bytes, with the few library
    routines of `strings`, `strconv` and `encoding/binary` the filter calls. */
module GoBytes {

  type byte = n: int | 0 <= n < 256

  type Bytes = seq<byte>

  datatype Option<+T> = None | Some(value: T) {
    predicate IsFailure() { None? }

    function PropagateFailure<U>(): Option<U>
      requires None?
    {
      None
    }

    function Extract(): T
      requires Some?
    {
      value
    }
  }

  datatype Result<+T, +E> = Ok(value: T) | Err(error: E) {
    predicate IsFailure() { Err? }

    function PropagateFailure<U>(): Result<U, E>
      requires Err?
    {
      Err(error)
    }

    function Extract(): T
      requires Ok?
    {
      value
    }
  }

  /** The bytes of an ASCII literal. */
  function Ascii(s: string): (b: Bytes)
    ensures |b| == |s|
    ensures forall i :: 0 <= i < |s| && s[i] < 128 as char ==> b[i] == s[i] as int
  {
    seq(|s|, i requires 0 <= i < |s| => if s[i] < 128 as char then s[i] as int else 63)
  }

  function Zeros(n: nat): (z: Bytes)
    ensures |z| == n && forall i :: 0 <= i < n ==> z[i] == 0
  {
    seq(n, _ => 0)
  }

  // ---------------------------------------------------------------- powers

  function Pow2(k: nat): (p: nat)
    ensures p >= 1
  {
    if k == 0 then 1 else 2 * Pow2(k - 1)
  }

  lemma {:induction false} Pow2Add(a: nat, b: nat)
    ensures Pow2(a + b) == Pow2(a) * Pow2(b)
  {
    if a == 0 {
    } else {
      Pow2Add(a - 1, b);
      assert Pow2(a + b) == 2 * Pow2(a - 1 + b);
    }
  }

  lemma {:induction false} Pow2Mono(a: nat, b: nat)
    requires a <= b
    ensures Pow2(a) <= Pow2(b)
    ensures a < b ==> Pow2(a) < Pow2(b)
  {
    if a < b {
      Pow2Mono(a, b - 1);
    }
  }

  lemma Pow2Values()
    ensures Pow2(1) == 2 && Pow2(2) == 4 && Pow2(3) == 8 && Pow2(4) == 16
    ensures Pow2(5) == 32 && Pow2(6) == 64 && Pow2(7) == 128 && Pow2(8) == 256
    ensures Pow2(16) == 0x1_0000 && Pow2(24) == 0x100_0000 && Pow2(32) == 0x1_0000_0000
    ensures Pow2(64) == 0x1_0000_0000_0000_0000
  {
    assert Pow2(4) == 16 && Pow2(3) == 8;
    Pow2Add(4, 1);
    Pow2Add(4, 2);
    Pow2Add(4, 3);
    Pow2Add(4, 4);
    Pow2Add(8, 8);
    Pow2Add(16, 8);
    Pow2Add(16, 16);
    Pow2Add(32, 32);
  }

  // ------------------------------------------------------------- division

  /** A multiple of `p` is at least as far from zero as its factor. */
  lemma Scale(q: int, p: int)
    requires p >= 1
    ensures q >= 0 ==> q * p >= q
    ensures q > 0 ==> q * p >= p
    ensures q < 0 ==> q * p <= -p
  {
  }

  lemma Distribute(a: int, b: int, p: int)
    ensures (a - b) * p == a * p - b * p
  {
  }

  lemma DivModUnique(x: int, p: int, q: int, r: int)
    requires 0 <= r < p && x == q * p + r
    ensures x / p == q && x % p == r
  {
    var e, f := x / p, x % p;
    assert x == e * p + f;
    Distribute(e, q, p);
    Scale(e - q, p);
  }

  lemma DivBound(x: nat, p: nat)
    requires p > 0
    ensures 0 <= x / p <= x
  {
    var q := x / p;
    assert x == q * p + x % p;
    Scale(q, p);
  }

  lemma DivModDouble(x: nat, p: nat)
    requires p > 0
    ensures x / (2 * p) == x / 2 / p
    ensures x % (2 * p) == 2 * (x / 2 % p) + x % 2
  {
    var q, r := x / 2 / p, x / 2 % p;
    assert x / 2 == q * p + r;
    DoubleProduct(q, p);
    DivModUnique(x, 2 * p, q, 2 * r + x % 2);
  }

  lemma DoubleProduct(x: int, p: int)
    ensures x * (2 * p) == 2 * (x * p)
  {
  }

  // ------------------------------------------------- fixed-width integers

  /** The number a big-endian byte string stands for. */
  function BE(b: Bytes): nat {
    if |b| == 0 then 0 else BE(b[..|b| - 1]) * 256 + b[|b| - 1]
  }

  /** The low `width` bytes of `n`, most significant first. */
  function ToBE(n: nat, width: nat): (b: Bytes)
    ensures |b| == width
  {
    if width == 0 then [] else ToBE(n / 256, width - 1) + [n % 256]
  }

  lemma {:induction false} BEBound(b: Bytes)
    ensures BE(b) < Pow2(8 * |b|)
  {
    if |b| > 0 {
      BEBound(b[..|b| - 1]);
      Pow2Values();
      Pow2Add(8 * (|b| - 1), 8);
    }
  }

  lemma Shift256(x: int, p: int, y: int)
    ensures (x * p + y) * 256 == x * (p * 256) + y * 256
  {
  }

  lemma {:induction false} BEConcat(a: Bytes, b: Bytes)
    ensures BE(a + b) == BE(a) * Pow2(8 * |b|) + BE(b)
  {
    if |b| == 0 {
      assert a + b == a;
    } else {
      var c := b[..|b| - 1];
      assert (a + b)[..|a + b| - 1] == a + c;
      BEConcat(a, c);
      var p, q := Pow2(8 * |c|), Pow2(8 * |b|);
      assert q == p * 256 by {
        Pow2Values();
        Pow2Add(8 * |c|, 8);
      }
      Shift256(BE(a), p, BE(c));
      assert BE(a + b) == (BE(a) * p + BE(c)) * 256 + b[|b| - 1];
    }
  }

  lemma WithoutLastByte(n: nat, width: nat)
    requires width > 0 && n < Pow2(8 * width)
    ensures n / 256 < Pow2(8 * (width - 1))
  {
    Pow2Values();
    Pow2Add(8 * (width - 1), 8);
  }

  lemma {:induction false} BEToBE(n: nat, width: nat)
    requires n < Pow2(8 * width)
    ensures BE(ToBE(n, width)) == n
  {
    if width > 0 {
      WithoutLastByte(n, width);
      hide Pow2;
      BEToBE(n / 256, width - 1);
      var b := ToBE(n, width);
      assert b[..|b| - 1] == ToBE(n / 256, width - 1);
    }
  }

  lemma {:induction false} ToBEBE(b: Bytes)
    ensures ToBE(BE(b), |b|) == b
  {
    if |b| > 0 {
      ToBEBE(b[..|b| - 1]);
      assert b == b[..|b| - 1] + [b[|b| - 1]];
    }
  }

  /** Equal-width big-endian strings with the same value are equal. */
  lemma BEInjective(a: Bytes, b: Bytes)
    requires |a| == |b| && BE(a) == BE(b)
    ensures a == b
  {
    ToBEBE(a);
    ToBEBE(b);
  }

  const U64 := 0x1_0000_0000_0000_0000

  type uint64 = n: int | 0 <= n < 0x1_0000_0000_0000_0000

  type int64 = x: int | -0x8000_0000_0000_0000 <= x < 0x8000_0000_0000_0000

  /** `uint64(x)` for an int64 `x`. */
  function ToUint64(x: int): nat { x % U64 }

  /** `int64(u)` for a uint64 `u`. */
  function ToInt64(u: nat): int
    requires u < U64
  {
    if u < U64 / 2 then u else u - U64
  }

  predicate Int64(x: int) { -(U64 / 2) <= x < U64 / 2 }

  // ------------------------------------------------------------- searching

  /** `strings.IndexByte`. */
  function IndexByte(s: Bytes, c: byte): (r: int)
    ensures -1 <= r < |s|
    ensures r >= 0 ==> s[r] == c && c !in s[..r] && forall i :: 0 <= i < r ==> s[i] != c
    ensures r < 0 ==> c !in s
  {
    if |s| == 0 then -1
    else if s[0] == c then 0
    else
      var k := IndexByte(s[1..], c);
      assert k >= 0 ==> s[..k + 1] == [s[0]] + s[1..][..k];
      assert s == [s[0]] + s[1..];
      if k < 0 then -1 else k + 1
  }

  /** The position of `c` in `a + [c] + b` when `c` is not in `a`. */
  lemma {:induction false} IndexByteAt(a: Bytes, c: byte, b: Bytes)
    requires c !in a
    ensures IndexByte(a + [c] + b, c) == |a|
  {
    var s := a + [c] + b;
    assert s[|a|] == c;
    assert forall i :: 0 <= i < |a| ==> s[i] == a[i];
    var r := IndexByte(s, c);
    assert forall i :: 0 <= i < r ==> s[i] == s[..r][i];
  }

  /** `strings.ToLower` of ASCII text. */
  function LowerByte(b: byte): byte { if 'A' as int <= b <= 'Z' as int then b + 32 else b }

  function Lower(s: Bytes): (t: Bytes)
    ensures |t| == |s| && forall i :: 0 <= i < |s| ==> t[i] == LowerByte(s[i])
  {
    seq(|s|, i requires 0 <= i < |s| => LowerByte(s[i]))
  }

  // ------------------------------------------------------------ whitespace

  predicate IsSpace(b: byte) { b == 32 || 9 <= b <= 13 }

  function TrimLeft(s: Bytes): (t: Bytes)
    ensures |t| <= |s| && t == s[|s| - |t|..]
    ensures |t| == 0 || !IsSpace(t[0])
  {
    if |s| > 0 && IsSpace(s[0]) then TrimLeft(s[1..]) else s
  }

  function TrimRight(s: Bytes): (t: Bytes)
    ensures t <= s
    ensures |t| == 0 || !IsSpace(t[|t| - 1])
  {
    if |s| > 0 && IsSpace(s[|s| - 1]) then TrimRight(s[..|s| - 1]) else s
  }

  /** `strings.TrimSpace` on ASCII text. */
  function TrimSpace(s: Bytes): Bytes { TrimRight(TrimLeft(s)) }

  predicate SpaceFree(s: Bytes) { forall i :: 0 <= i < |s| ==> !IsSpace(s[i]) }

  // -------------------------------------------------------------- decimals

  predicate IsDigit(b: byte) { 48 <= b <= 57 }

  predicate AllDigits(s: Bytes) { forall i :: 0 <= i < |s| ==> IsDigit(s[i]) }

  /** `strconv.FormatUint(n, 10)`. */
  function Decimal(n: nat): (s: Bytes)
    ensures |s| > 0 && forall i :: 0 <= i < |s| ==> IsDigit(s[i])
  {
    if n < 10 then [48 + n] else Decimal(n / 10) + [48 + n % 10]
  }

  /** `strconv.Itoa`. */
  function Itoa(n: int): Bytes { if n < 0 then ['-' as int] + Decimal(-n) else Decimal(n) }

  /** The value of a string of digits. */
  function DigitsValue(s: Bytes): nat
    requires forall i :: 0 <= i < |s| ==> IsDigit(s[i])
  {
    if |s| == 0 then 0
    else
      assert IsDigit(s[|s| - 1]);
      DigitsValue(s[..|s| - 1]) * 10 + (s[|s| - 1] as int - 48)
  }

  /** `strconv.ParseUint(s, 10, w)` with `limit == 2^w`; None stands for any error. */
  function ParseUint(s: Bytes, limit: nat): (r: Option<nat>)
    ensures r.Some? ==> r.value < limit
  {
    if |s| == 0 || exists i :: 0 <= i < |s| && !IsDigit(s[i]) then None
    else if DigitsValue(s) < limit then Some(DigitsValue(s))
    else None
  }

  lemma {:induction false} DecimalValue(n: nat)
    ensures DigitsValue(Decimal(n)) == n
  {
    var s := Decimal(n);
    if n < 10 {
      assert s[..0] == [];
    } else {
      DecimalValue(n / 10);
      assert s[..|s| - 1] == Decimal(n / 10);
    }
  }

  /** `strconv.ParseInt(s, 10, 64)` of text without a plus sign. */
  function ParseInt(s: Bytes): Option<int64> {
    if |s| > 0 && s[0] == '-' as int then
      var n := ParseUint(s[1..], 0x8000_0000_0000_0001);
      if n.Some? then Some(-(n.value as int)) else None
    else
      var n := ParseUint(s, 0x8000_0000_0000_0000);
      if n.Some? then Some(n.value) else None
  }

  lemma ParseItoa(x: int64)
    ensures ParseInt(Itoa(x)) == Some(x)
  {
    var y: int := x;
    var d := Decimal(if y < 0 then -y else y);
    DecimalValue(if y < 0 then -y else y);
    assert IsDigit(d[0]);
    if x < 0 {
      assert (['-' as int] + d)[1..] == d;
    }
  }

  lemma ParseDecimal(n: nat, limit: nat)
    requires n < limit
    ensures ParseUint(Decimal(n), limit) == Some(n)
  {
    DecimalValue(n);
  }

  // ------------------------------------------------------------ what is trimmed

  lemma {:induction false} TrimLeftOf(pre: Bytes, s: Bytes)
    requires (forall i :: 0 <= i < |pre| ==> IsSpace(pre[i])) && |s| > 0 && !IsSpace(s[0])
    ensures TrimLeft(pre + s) == s
  {
    hide IsSpace;
    if |pre| == 0 {
      assert pre + s == s;
    } else {
      assert (pre + s)[1..] == pre[1..] + s;
      TrimLeftOf(pre[1..], s);
    }
  }

  lemma {:induction false} TrimRightOf(s: Bytes, post: Bytes)
    requires (forall i :: 0 <= i < |post| ==> IsSpace(post[i])) && |s| > 0 && !IsSpace(s[|s| - 1])
    ensures TrimRight(s + post) == s
  {
    hide IsSpace;
    if |post| == 0 {
      assert s + post == s;
    } else {
      assert (s + post)[..|s + post| - 1] == s + post[..|post| - 1];
      TrimRightOf(s, post[..|post| - 1]);
    }
  }

  /** Tab, line feed, vertical tab, form feed, carriage return and space. */
  predicate Blank(b: byte) { b == 9 || b == 10 || b == 11 || b == 12 || b == 13 || b == 32 }

  lemma BlankIsSpace(s: Bytes)
    ensures forall i :: 0 <= i < |s| ==> (Blank(s[i]) <==> IsSpace(s[i]))
  {
  }

  /** Exactly these are trimmed, from both ends. */
  lemma TrimSpaceOf(pre: Bytes, s: Bytes, post: Bytes)
    requires (forall i :: 0 <= i < |pre| ==> Blank(pre[i])) && (forall i :: 0 <= i < |post| ==> Blank(post[i]))
    requires |s| > 0 && !Blank(s[0]) && !Blank(s[|s| - 1])
    ensures TrimSpace(pre + s + post) == s
  {
    BlankIsSpace(pre);
    BlankIsSpace(s);
    BlankIsSpace(post);
    hide TrimLeft, TrimRight, Blank, IsSpace;
    assert pre + s + post == pre + (s + post);
    TrimLeftOf(pre, s + post);
    TrimRightOf(s, post);
  }

  lemma LowerLetters()
    ensures Lower(Ascii("ABCDEFGHIJKLMNOPQRSTUVWXYZ")) == Ascii("abcdefghijklmnopqrstuvwxyz")
    ensures Lower(Ascii("@[`{09az")) == Ascii("@[`{09az")
  {
  }
}
