/** Go's view of UTF-8 (section 4 of RFC 3629): text is read rune by rune, and a
    byte that starts no rune counts as U+FFFD. */
module Utf8 {
  import opened GoBytes

  const REPLACEMENT: Bytes := [0xEF, 0xBF, 0xBD]

  predicate Follows(s: Bytes, i: nat, lo: nat, hi: nat) { i < |s| && lo <= s[i] <= hi }

  predicate Cont(s: Bytes, i: nat) { Follows(s, i, 0x80, 0xBF) }

  /** The length of the rune at the front, 0 when there is none. */
  function RuneLen(s: Bytes): (n: nat)
    ensures n <= |s| && n <= 4
  {
    if |s| == 0 then 0
    else if s[0] < 0x80 then 1
    else if 0xC2 <= s[0] <= 0xDF then (if Cont(s, 1) then 2 else 0)
    else if s[0] == 0xE0 then (if Follows(s, 1, 0xA0, 0xBF) && Cont(s, 2) then 3 else 0)
    else if s[0] == 0xED then (if Follows(s, 1, 0x80, 0x9F) && Cont(s, 2) then 3 else 0)
    else if 0xE1 <= s[0] <= 0xEF then (if Cont(s, 1) && Cont(s, 2) then 3 else 0)
    else if s[0] == 0xF0 then (if Follows(s, 1, 0x90, 0xBF) && Cont(s, 2) && Cont(s, 3) then 4 else 0)
    else if s[0] == 0xF4 then (if Follows(s, 1, 0x80, 0x8F) && Cont(s, 2) && Cont(s, 3) then 4 else 0)
    else if 0xF1 <= s[0] <= 0xF3 then (if Cont(s, 1) && Cont(s, 2) && Cont(s, 3) then 4 else 0)
    else 0
  }

  /** `s` with every byte that starts no rune replaced. */
  function Clean(s: Bytes): Bytes {
    if |s| == 0 then []
    else if RuneLen(s) == 0 then REPLACEMENT + Clean(s[1..])
    else s[..RuneLen(s)] + Clean(s[RuneLen(s)..])
  }

  /** Valid text is what cleaning leaves alone. */
  predicate Valid(s: Bytes) { Clean(s) == s }

  /** A rune is read off whatever follows it. */
  lemma RuneInFront(s: Bytes, rest: Bytes)
    requires RuneLen(s) > 0
    ensures RuneLen(s[..RuneLen(s)] + rest) == RuneLen(s)
  {
    var n := RuneLen(s);
    var t := s[..n] + rest;
    assert forall i :: 0 <= i < n ==> t[i] == s[i];
  }

  lemma CleanRune(r: Bytes, rest: Bytes)
    requires |r| > 0 && RuneLen(r + rest) == |r|
    ensures Clean(r + rest) == r + Clean(rest)
  {
    assert (r + rest)[..|r|] == r && (r + rest)[|r|..] == rest;
  }

  lemma {:induction false} CleanTwice(s: Bytes)
    ensures Clean(Clean(s)) == Clean(s)
  {
    hide RuneLen;
    if |s| > 0 {
      var n := RuneLen(s);
      if n == 0 {
        CleanTwice(s[1..]);
        ReplacementIsRune(Clean(s[1..]));
        CleanRune(REPLACEMENT, Clean(s[1..]));
      } else {
        CleanTwice(s[n..]);
        RuneInFront(s, Clean(s[n..]));
        CleanRune(s[..n], Clean(s[n..]));
      }
    }
  }

  lemma ReplacementIsRune(rest: Bytes)
    ensures RuneLen(REPLACEMENT + rest) == 3
  {
  }

  lemma {:induction false} AsciiIsValid(s: Bytes)
    requires forall i :: 0 <= i < |s| ==> s[i] < 0x80
    ensures Valid(s)
  {
    if |s| > 0 {
      AsciiIsValid(s[1..]);
      assert s == s[..1] + s[1..];
    }
  }

  lemma CleanEmpty(s: Bytes)
    ensures Clean(s) == [] <==> s == []
  {
  }

  /** The bytes of a code point; surrogates and numbers past U+10FFFF have none. */
  function EncodeRune(c: nat): Bytes {
    if c < 0x80 then [c]
    else if c < 0x800 then [0xC0 + c / 64, 0x80 + c % 64]
    else if 0xD800 <= c < 0xE000 || c > 0x10FFFF then REPLACEMENT
    else if c < 0x1_0000 then [0xE0 + c / 4096, 0x80 + c / 64 % 64, 0x80 + c % 64]
    else [0xF0 + c / 0x4_0000, 0x80 + c / 4096 % 64, 0x80 + c / 64 % 64, 0x80 + c % 64]
  }

  // -------------------------------------------------- the encoding, outright

  /** Scalar values: code points that are no surrogates. */
  predicate Scalar(c: nat) { c < 0xD800 || 0xE000 <= c <= 0x10FFFF }

  /** The encoding of every scalar value is one rune. */
  lemma EncodedRune(c: nat, rest: Bytes)
    requires Scalar(c)
    ensures |EncodeRune(c)| > 0 && RuneLen(EncodeRune(c) + rest) == |EncodeRune(c)|
  {
    if c < 0x800 {
      ShortRune(c, rest);
    } else if c < 0x1_0000 {
      ThreeByteRune(c, rest);
    } else {
      FourByteRune(c, rest);
    }
  }

  lemma ShortRune(c: nat, rest: Bytes)
    requires c < 0x800
    ensures |EncodeRune(c)| > 0 && RuneLen(EncodeRune(c) + rest) == |EncodeRune(c)|
  {
  }

  lemma ThreeByteRune(c: nat, rest: Bytes)
    requires 0x800 <= c < 0xD800 || 0xE000 <= c < 0x1_0000
    ensures |EncodeRune(c)| == 3 && RuneLen(EncodeRune(c) + rest) == 3
  {
    var s := EncodeRune(c) + rest;
    assert s[0] == 0xE0 + c / 4096 && s[1] == 0x80 + c / 64 % 64 && s[2] == 0x80 + c % 64;
  }

  lemma FourByteRune(c: nat, rest: Bytes)
    requires 0x1_0000 <= c <= 0x10FFFF
    ensures |EncodeRune(c)| == 4 && RuneLen(EncodeRune(c) + rest) == 4
  {
    var s := EncodeRune(c) + rest;
    assert s[0] == 0xF0 + c / 0x4_0000 && s[1] == 0x80 + c / 4096 % 64 && s[2] == 0x80 + c / 64 % 64 && s[3] == 0x80 + c % 64;
  }

  /** The scalar value of a rune. */
  function RuneValue(s: Bytes): nat
    requires RuneLen(s) > 0
  {
    var a: int := s[0];
    match RuneLen(s)
    case 1 => a
    case 2 => (a - 0xC0) * 64 + (s[1] - 0x80)
    case 3 => (a - 0xE0) * 4096 + (s[1] - 0x80) as int * 64 + (s[2] - 0x80)
    case _ => (a - 0xF0) * 262144 + (s[1] - 0x80) as int * 4096 + (s[2] - 0x80) as int * 64 + (s[3] - 0x80)
  }

  /** Three and four continuation digits in base 64. */
  lemma Digits64(a: nat, b: nat, c: nat, d: nat)
    requires b < 64 && c < 64 && d < 64
    ensures var n := ((a * 64 + b) * 64 + c) * 64 + d;
            && n / 262144 == a && n / 4096 % 64 == b && n / 64 % 64 == c && n % 64 == d
            && n / 4096 == a * 64 + b && n / 64 == (a * 64 + b) * 64 + c
  {
    var n := ((a * 64 + b) * 64 + c) * 64 + d;
    DivModUnique(n, 64, (a * 64 + b) * 64 + c, d);
    DivModUnique((a * 64 + b) * 64 + c, 64, a * 64 + b, c);
    DivModUnique(n, 4096, a * 64 + b, c * 64 + d);
    DivModUnique(a * 64 + b, 64, a, b);
    DivModUnique(n, 262144, a, b * 4096 + c * 64 + d);
  }

  /** Every rune is the encoding of a scalar value: valid text is text of those. */
  lemma RuneIsEncoded(s: Bytes)
    requires RuneLen(s) > 0
    ensures Scalar(RuneValue(s)) && EncodeRune(RuneValue(s)) == s[..RuneLen(s)]
  {
    if RuneLen(s) == 3 {
      ThreeBytesEncoded(s);
    } else if RuneLen(s) == 4 {
      FourBytesEncoded(s);
    } else {
      FewBytesEncoded(s);
    }
  }

  lemma FewBytesEncoded(s: Bytes)
    requires 0 < RuneLen(s) <= 2
    ensures Scalar(RuneValue(s)) && EncodeRune(RuneValue(s)) == s[..RuneLen(s)]
  {
    if RuneLen(s) == 1 {
      assert s[..1] == [s[0]];
    } else {
      Digits64(0, 0, s[0] - 0xC0, s[1] - 0x80);
      assert s[..2] == [s[0], s[1]];
    }
  }

  lemma ThreeBytesEncoded(s: Bytes)
    requires RuneLen(s) == 3
    ensures Scalar(RuneValue(s)) && EncodeRune(RuneValue(s)) == s[..3]
  {
    Digits64(0, s[0] - 0xE0, s[1] - 0x80, s[2] - 0x80);
    assert s[..3] == [s[0], s[1], s[2]];
  }

  lemma FourBytesEncoded(s: Bytes)
    requires RuneLen(s) == 4
    ensures Scalar(RuneValue(s)) && EncodeRune(RuneValue(s)) == s[..4]
  {
    Digits64(s[0] - 0xF0, s[1] - 0x80, s[2] - 0x80, s[3] - 0x80);
    assert s[..4] == [s[0], s[1], s[2], s[3]];
  }

  /** Examples of section 7 of RFC 3629. */
  lemma Examples()
    ensures EncodeRune(0x41) == [0x41] && EncodeRune(0x391) == [0xCE, 0x91]
    ensures EncodeRune(0x2262) == [0xE2, 0x89, 0xA2] && EncodeRune(0x233B4) == [0xF0, 0xA3, 0x8E, 0xB4]
  {
  }
}
