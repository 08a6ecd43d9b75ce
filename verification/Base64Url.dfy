/** Unpadded base64url (section 5 of RFC 4648): the encoder and lenient decoder
    of Go's `base64.RawURLEncoding`, and the challenge page's `b64dec`. */
module Base64Url {
  import opened GoBytes

  datatype Alphabet = Url | Standard

  /** The two symbols in which the alphabets differ. */
  function Extra(a: Alphabet): (byte, byte) {
    if a == Url then ('-' as int, '_' as int) else ('+' as int, '/' as int)
  }

  /** Symbol for a sextet of the URL alphabet. */
  function Symbol(v: nat): byte
    requires v < 64
  {
    if v < 26 then 'A' as int + v
    else if v < 52 then 'a' as int + v - 26
    else if v < 62 then '0' as int + v - 52
    else if v == 62 then Extra(Url).0
    else Extra(Url).1
  }

  /** Sextet for a symbol, -1 when the symbol is not in the alphabet. */
  function Sextet(a: Alphabet, c: byte): (v: int)
    ensures -1 <= v < 64
  {
    if 'A' as int <= c <= 'Z' as int then c - 'A' as int
    else if 'a' as int <= c <= 'z' as int then c - 'a' as int + 26
    else if '0' as int <= c <= '9' as int then c - '0' as int + 52
    else if c == Extra(a).0 then 62
    else if c == Extra(a).1 then 63
    else -1
  }

  predicate InUrlAlphabet(s: Bytes) { forall i :: 0 <= i < |s| ==> Sextet(Url, s[i]) >= 0 }

  /** One to three bytes as two to four symbols. */
  function EncodeGroup(b: Bytes): (s: Bytes)
    requires 1 <= |b| <= 3
    ensures |s| == |b| + 1
    ensures InUrlAlphabet(s)
  {
    var x := b[0];
    var y: byte := if |b| > 1 then b[1] else 0;
    var z: byte := if |b| > 2 then b[2] else 0;
    var four := [Symbol(x / 4), Symbol(x % 4 * 16 + y / 16), Symbol(y % 16 * 4 + z / 64), Symbol(z % 64)];
    four[..|b| + 1]
  }

  function Encode(b: Bytes): (s: Bytes)
    ensures InUrlAlphabet(s)
    ensures |s| % 4 != 1
    ensures |b| > 0 ==> |s| > 0
  {
    if |b| == 0 then []
    else if |b| <= 3 then EncodeGroup(b)
    else EncodeGroup(b[..3]) + Encode(b[3..])
  }

  /** Two to four symbols as one to three bytes; left-over bits are ignored. */
  function DecodeGroup(a: Alphabet, s: Bytes): (r: Option<Bytes>)
    requires 2 <= |s| <= 4
    ensures r.Some? ==> |r.value| == |s| - 1
  {
    var v0, v1 := Sextet(a, s[0]), Sextet(a, s[1]);
    var v2 := if |s| > 2 then Sextet(a, s[2]) else 0;
    var v3 := if |s| > 3 then Sextet(a, s[3]) else 0;
    if v0 < 0 || v1 < 0 || v2 < 0 || v3 < 0 then None
    else
      var three: Bytes := [v0 * 4 + v1 / 16, v1 % 16 * 16 + v2 / 4, v2 % 4 * 64 + v3];
      Some(three[..|s| - 1])
  }

  /** Decodes groups of four symbols; the last group may have two or three. */
  function DecodeGroups(a: Alphabet, s: Bytes): Option<Bytes> {
    if |s| == 0 then Some([])
    else if |s| == 1 then None
    else if |s| <= 4 then DecodeGroup(a, s)
    else
      var first :- DecodeGroup(a, s[..4]);
      var rest :- DecodeGroups(a, s[4..]);
      Some(first + rest)
  }

  /** Go's decoder skips carriage returns and line feeds wherever they stand. */
  function SkipNewlines(s: Bytes): Bytes {
    if |s| == 0 then []
    else (if s[0] == 10 || s[0] == 13 then [] else [s[0]]) + SkipNewlines(s[1..])
  }

  /** `base64.RawURLEncoding.DecodeString`. */
  function Decode(s: Bytes): Option<Bytes> { DecodeGroups(Url, SkipNewlines(s)) }

  lemma SymbolSextet(v: nat)
    requires v < 64
    ensures Sextet(Url, Symbol(v)) == v
  {
  }

  lemma {:induction false} NoNewlinesToSkip(s: Bytes)
    requires InUrlAlphabet(s)
    ensures SkipNewlines(s) == s
  {
    if |s| > 0 {
      assert Sextet(Url, s[0]) >= 0;
      NoNewlinesToSkip(s[1..]);
      assert s == [s[0]] + s[1..];
    }
  }

  /** The sextets of one encoded group, unpacked as the decoder does. */
  lemma Repack(x: byte, y: byte, z: byte)
    ensures x / 4 * 4 + (x % 4 * 16 + y / 16) / 16 == x
    ensures (x % 4 * 16 + y / 16) % 16 * 16 + (y % 16 * 4 + z / 64) / 4 == y
    ensures (y % 16 * 4 + z / 64) % 4 * 64 + z % 64 == z
  {
  }

  lemma GroupRoundTrip(b: Bytes)
    requires 1 <= |b| <= 3
    ensures DecodeGroup(Url, EncodeGroup(b)) == Some(b)
  {
    hide Symbol, Sextet;
    var x := b[0];
    var y: byte := if |b| > 1 then b[1] else 0;
    var z: byte := if |b| > 2 then b[2] else 0;
    Repack(x, y, z);
    SymbolSextet(x / 4);
    SymbolSextet(x % 4 * 16 + y / 16);
    SymbolSextet(y % 16 * 4 + z / 64);
    SymbolSextet(z % 64);
    assert b == [x, y, z][..|b|];
  }

  lemma {:induction false} GroupsRoundTrip(b: Bytes)
    ensures DecodeGroups(Url, Encode(b)) == Some(b)
  {
    if |b| == 0 {
    } else if |b| <= 3 {
      GroupRoundTrip(b);
    } else {
      GroupRoundTrip(b[..3]);
      GroupsRoundTrip(b[3..]);
      var s := Encode(b);
      assert s[..4] == EncodeGroup(b[..3]);
      assert s[4..] == Encode(b[3..]);
      assert b == b[..3] + b[3..];
    }
  }

  /** Decoding undoes encoding, for every byte string. */
  lemma RoundTrip(b: Bytes)
    ensures Decode(Encode(b)) == Some(b)
  {
    NoNewlinesToSkip(Encode(b));
    GroupsRoundTrip(b);
  }

  /** Encodings contain no cookie or token delimiter. */
  lemma UrlAlphabetIsPlain(s: Bytes, i: nat)
    requires InUrlAlphabet(s) && i < |s|
    ensures s[i] != '.' as int && s[i] != ';' as int && s[i] != '=' as int
    ensures !IsSpace(s[i]) && 33 < s[i] < 127 && s[i] != ',' as int && s[i] != '\\' as int
  {
    assert Sextet(Url, s[i]) >= 0;
  }

  // ----------------------------------------------------- the page's b64dec

  /** `s.replace(/-/g,'+').replace(/_/g,'/')`. */
  function ToStandard(s: Bytes): (t: Bytes)
    ensures |t| == |s|
  {
    seq(|s|, i requires 0 <= i < |s| =>
      if s[i] == '-' as int then '+' as int else if s[i] == '_' as int then '/' as int else s[i])
  }

  /** `while(s.length%4) s+='='`. */
  method PadToFour(s: Bytes) returns (t: Bytes)
    ensures |t| % 4 == 0 && |s| <= |t| < |s| + 4
    ensures s <= t && forall i :: |s| <= i < |t| ==> t[i] == '=' as int
  {
    t := s;
    while |t| % 4 != 0
      invariant |s| <= |t| <= |s| + (4 - |s| % 4) % 4
      invariant s <= t && forall i :: |s| <= i < |t| ==> t[i] == '=' as int
      decreases |s| + 4 - |t|
    {
      t := t + ['=' as int];
    }
  }

  /** Removes one or two padding signs from a string of length 4k. */
  function StripPadding(t: Bytes): Bytes {
    if |t| % 4 != 0 || |t| == 0 || t[|t| - 1] != '=' as int then t
    else if t[|t| - 2] == '=' as int then t[..|t| - 2]
    else t[..|t| - 1]
  }

  /** The forgiving base64 decode behind `atob`: white space is dropped, padding
      is removed, and a remaining length of 4k+1 is an error. */
  function Atob(s: Bytes): Option<Bytes> {
    var u := StripPadding(DropSpace(s));
    if |u| % 4 == 1 then None else DecodeGroups(Standard, u)
  }

  /** ASCII white space: tab, line feed, form feed, carriage return, space. */
  function DropSpace(s: Bytes): Bytes {
    if |s| == 0 then []
    else (if s[0] in {9, 10, 12, 13, 32} then [] else [s[0]]) + DropSpace(s[1..])
  }

  lemma {:induction false} NoSpaceToDrop(s: Bytes)
    requires forall i :: 0 <= i < |s| ==> s[i] > 32
    ensures DropSpace(s) == s
  {
    if |s| > 0 {
      NoSpaceToDrop(s[1..]);
      assert s == [s[0]] + s[1..];
    }
  }

  lemma SameSextet(s: Bytes, i: nat)
    requires InUrlAlphabet(s) && i < |s|
    ensures Sextet(Standard, ToStandard(s)[i]) == Sextet(Url, s[i])
  {
    assert Sextet(Url, s[i]) >= 0;
  }

  lemma StandardGroup(s: Bytes)
    requires 2 <= |s| <= 4 && InUrlAlphabet(s)
    ensures DecodeGroup(Standard, ToStandard(s)) == DecodeGroup(Url, s)
  {
    forall i | 0 <= i < |s|
      ensures Sextet(Standard, ToStandard(s)[i]) == Sextet(Url, s[i])
    {
      SameSextet(s, i);
    }
  }

  lemma {:induction false} StandardGroups(s: Bytes)
    requires InUrlAlphabet(s)
    ensures DecodeGroups(Standard, ToStandard(s)) == DecodeGroups(Url, s)
  {
    if |s| > 4 {
      StandardGroup(s[..4]);
      StandardGroups(s[4..]);
      assert ToStandard(s)[4..] == ToStandard(s[4..]);
      assert ToStandard(s)[..4] == ToStandard(s[..4]);
    } else if |s| >= 2 {
      StandardGroup(s);
    }
  }

  lemma StripsThePadding(u: Bytes, t: Bytes)
    requires |u| % 4 != 1 && |t| % 4 == 0 && |u| <= |t| < |u| + 4 && u <= t
    requires forall i :: |u| <= i < |t| ==> t[i] == '=' as int
    requires '=' as int !in u
    ensures StripPadding(t) == u
  {
    assert t[..|u|] == u;
    assert forall i :: 0 <= i < |u| ==> t[i] == u[i];
  }

  lemma PaddedAtob(s: Bytes, t: Bytes)
    requires InUrlAlphabet(s) && |s| % 4 != 1
    requires |t| % 4 == 0 && |s| <= |t| < |s| + 4 && ToStandard(s) <= t
    requires forall i :: |s| <= i < |t| ==> t[i] == '=' as int
    ensures Atob(t) == DecodeGroups(Url, s)
  {
    var u := ToStandard(s);
    forall i | 0 <= i < |s|
      ensures u[i] > 32 && u[i] != '=' as int
    {
      assert Sextet(Url, s[i]) >= 0;
    }
    assert forall i :: 0 <= i < |s| ==> t[i] == u[i];
    NoSpaceToDrop(t);
    StripsThePadding(u, t);
    StandardGroups(s);
  }

  lemma {:induction false} DecodedLength(a: Alphabet, s: Bytes)
    ensures DecodeGroups(a, s).Some? ==> |DecodeGroups(a, s).value| <= |s|
  {
    if |s| > 4 {
      DecodedLength(a, s[4..]);
    }
  }

  lemma {:induction false} DropSpaceLength(s: Bytes)
    ensures |DropSpace(s)| <= |s|
  {
    if |s| > 0 {
      DropSpaceLength(s[1..]);
    }
  }

  /** The page decodes what the filter encodes: `b64dec(Encode(b)) == b`. */
  method PageDecode(s: Bytes) returns (r: Option<Bytes>)
    ensures r.Some? ==> |r.value| <= |s| + 3
    ensures forall b {:trigger Encode(b)} :: s == Encode(b) ==> r == Some(b)
  {
    hide Encode, DecodeGroups, ToStandard, DropSpace;
    var t := PadToFour(ToStandard(s));
    r := Atob(t);
    DropSpaceLength(t);
    DecodedLength(Standard, StripPadding(DropSpace(t)));
    forall b: Bytes | s == Encode(b)
      ensures r == Some(b)
    {
      GroupsRoundTrip(b);
      PaddedAtob(s, t);
    }
  }

  // -------------------------------------------------- the encoding, outright

  const UPPER := Ascii("ABCDEFGHIJKLMNOPQRSTUVWXYZ")
  const LOWER := Ascii("abcdefghijklmnopqrstuvwxyz")
  const OTHERS := Ascii("0123456789-_")

  /** Table 2 of RFC 4648. */
  lemma SymbolTable(v: nat)
    requires v < 64
    ensures Symbol(v) == (UPPER + LOWER + OTHERS)[v]
  {
    if v < 26 {
      UpperSymbol(v);
    } else if v < 52 {
      LowerSymbol(v - 26);
    } else {
      OtherSymbol(v - 52);
    }
  }

  lemma UpperSymbol(k: nat)
    requires k < 26
    ensures |UPPER| == 26 && UPPER[k] == Symbol(k)
  {
  }

  lemma LowerSymbol(k: nat)
    requires k < 26
    ensures |UPPER| == |LOWER| == 26 && LOWER[k] == Symbol(26 + k)
  {
  }

  lemma OtherSymbol(k: nat)
    requires k < 12
    ensures |UPPER| == |LOWER| == 26 && |OTHERS| == 12 && OTHERS[k] == Symbol(52 + k)
  {
  }

  /** Three bytes and the four symbols of their group are one 24-bit number, in base
      256 and in base 64; a shorter group is filled up with zero bits. */
  lemma GroupIsNumber(b: Bytes)
    requires 1 <= |b| <= 3
    ensures var full := b + [0, 0][..3 - |b|];
            var n := (full[0] as int * 256 + full[1] as int) * 256 + full[2] as int;
            var s := EncodeGroup(b);
            && s[0] == Symbol(n / 262144) && s[1] == Symbol(n / 4096 % 64)
            && (|b| > 1 ==> s[2] == Symbol(n / 64 % 64)) && (|b| > 2 ==> s[3] == Symbol(n % 64))
  {
    hide Symbol;
    var x := b[0];
    var y: byte := if |b| > 1 then b[1] else 0;
    var z: byte := if |b| > 2 then b[2] else 0;
    assert b + [0, 0][..3 - |b|] == [x, y, z];
    GroupDigits(x, y, z);
  }

  lemma GroupDigits(x: int, y: int, z: int)
    requires 0 <= x < 256 && 0 <= y < 256 && 0 <= z < 256
    ensures var n := (x * 256 + y) * 256 + z;
            && n / 262144 == x / 4 && n / 4096 % 64 == x % 4 * 16 + y / 16
            && n / 64 % 64 == y % 16 * 4 + z / 64 && n % 64 == z % 64
  {
    var n := (x * 256 + y) * 256 + z;
    DivModUnique(n, 262144, x / 4, x % 4 * 65536 + y * 256 + z);
    DivModUnique(n, 4096, x * 16 + y / 16, y % 16 * 256 + z);
    DivModUnique(x * 16 + y / 16, 64, x / 4, x % 4 * 16 + y / 16);
    DivModUnique(n, 64, x * 1024 + y * 4 + z / 64, z % 64);
    DivModUnique(x * 1024 + y * 4 + z / 64, 64, x * 16 + y / 16, y % 16 * 4 + z / 64);
  }

  /** Test vectors of section 10 of RFC 4648, without padding. */
  lemma Vectors()
    ensures Encode([]) == [] && Encode(Ascii("f")) == Ascii("Zg") && Encode(Ascii("fo")) == Ascii("Zm8")
    ensures Encode(Ascii("foo")) == Ascii("Zm9v") && Encode(Ascii("foob")) == Ascii("Zm9vYg")
  {
    hide Encode, EncodeGroup;
    OneByteVector(102);
    OneByteVector(98);
    TwoByteVector();
    ThreeByteVector();
    assert Ascii("f") == [102] && Ascii("fo") == [102, 111] && Ascii("foo") == [102, 111, 111];
    assert Ascii("foob") == [102, 111, 111] + [98];
    EncodeMore([102, 111, 111], [98]);
    EncodeEmpty();
  }

  lemma EncodeEmpty()
    ensures Encode([]) == []
  {
  }

  lemma EncodeMore(a: Bytes, b: Bytes)
    requires |a| == 3 && |b| > 0
    ensures Encode(a + b) == Encode(a) + Encode(b)
  {
    hide EncodeGroup;
    assert (a + b)[..3] == a && (a + b)[3..] == b;
  }

  lemma OneByteVector(x: byte)
    ensures Encode([x]) == [Symbol(x / 4), Symbol(x % 4 * 16)]
    ensures x == 102 ==> Encode([x]) == Ascii("Zg")
    ensures x == 98 ==> Encode([x]) == Ascii("Yg")
  {
  }

  lemma TwoByteVector()
    ensures Encode([102, 111]) == Ascii("Zm8")
  {
    assert Encode([102, 111]) == [Symbol(25), Symbol(38), Symbol(60)];
  }

  lemma ThreeByteVector()
    ensures Encode([102, 111, 111]) == Ascii("Zm9v")
  {
    assert Encode([102, 111, 111]) == [Symbol(25), Symbol(38), Symbol(61), Symbol(47)];
  }
}
