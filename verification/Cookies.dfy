/** The cookie readers and the Set-Cookie printer of main.go, against the
    cookie-string grammar of section 4.2.1 of RFC 6265. */
module Cookies {
  import opened GoBytes
  import opened Base64Url
  import opened Tokens

  const CLEARANCE := Ascii("challenge-clearance")
  const CHALLENGE := Ascii("challenge")
  const SIGNATURE := Ascii("challenge-sig")
  const NONCE := Ascii("challenge-nonce")

  const EQ: byte := '=' as int
  const SEMI: byte := ';' as int
  const SPACE: byte := 32

  datatype ChallengeCookies =
    ChallengeCookies(clearance: Bytes, challenge: Bytes, signature: Bytes, nonce: Bytes)

  const NO_COOKIES := ChallengeCookies([], [], [], [])

  function Store(out: ChallengeCookies, name: Bytes, val: Bytes): ChallengeCookies {
    if name == CLEARANCE then out.(clearance := val)
    else if name == CHALLENGE then out.(challenge := val)
    else if name == SIGNATURE then out.(signature := val)
    else if name == NONCE then out.(nonce := val)
    else out
  }

  // ------------------------------------------------------ parseChallengeCookies

  function SkipSeparators(s: Bytes): (t: Bytes)
    ensures |t| <= |s| && t == s[|s| - |t|..]
  {
    if |s| > 0 && (s[0] == SPACE || s[0] == SEMI) then SkipSeparators(s[1..]) else s
  }

  /** What the scanner makes of the rest of a header. The name runs to the next
      `=` even across a `;`. */
  function Scan(s: Bytes, out: ChallengeCookies): ChallengeCookies
    decreases |s|
  {
    var t := SkipSeparators(s);
    var eq := IndexByte(t, EQ);
    if eq < 0 then out
    else
      var v := t[eq + 1..];
      var semi := IndexByte(v, SEMI);
      if semi < 0 then Store(out, TrimSpace(t[..eq]), TrimSpace(v))
      else Scan(v[semi + 1..], Store(out, TrimSpace(t[..eq]), TrimSpace(v[..semi])))
  }

  /** The inner loop over spaces and separators. */
  method SkipFrom(header: Bytes, from: nat) returns (start: nat)
    requires from <= |header|
    ensures from <= start <= |header| && header[start..] == SkipSeparators(header[from..])
  {
    start := from;
    while start < |header| && (header[start] == SPACE || header[start] == SEMI)
      invariant from <= start <= |header|
      invariant SkipSeparators(header[start..]) == SkipSeparators(header[from..])
    {
      assert header[start..][1..] == header[start + 1..];
      start := start + 1;
    }
  }

  method ParseChallengeCookies(cookieHeader: Bytes) returns (out: ChallengeCookies)
    ensures out == Scan(cookieHeader, NO_COOKIES)
  {
    hide TrimSpace, Store, IndexByte, SkipSeparators, Scan;
    out := NO_COOKIES;
    if cookieHeader == [] {
      ScanEmpty(out);
      return;
    }
    var start, n := 0, |cookieHeader|;
    assert cookieHeader[0..] == cookieHeader;
    while start < n
      invariant 0 <= start <= n
      invariant Scan(cookieHeader[start..], out) == Scan(cookieHeader, NO_COOKIES)
      decreases n - start
    {
      ghost var from := start;
      start := SkipFrom(cookieHeader, start);
      if start >= n {
        ScanBlank(cookieHeader[from..], out);
        return;
      }
      var rel := IndexByte(cookieHeader[start..], EQ);
      ScanStep(cookieHeader[from..], out);
      if rel < 0 {
        return;
      }
      var eq := rel + start;
      SliceOfTail(cookieHeader, start, eq);
      var name := TrimSpace(cookieHeader[start..eq]);
      var valStart := eq + 1;
      SliceOfTail(cookieHeader, start, valStart);
      var semi := IndexByte(cookieHeader[valStart..], SEMI);
      var val: Bytes;
      if semi < 0 {
        val := TrimSpace(cookieHeader[valStart..]);
        start := n;
        assert cookieHeader[n..] == [];
        ScanEmpty(Store(out, name, val));
      } else {
        SliceOfTail(cookieHeader, valStart, valStart + semi);
        val := TrimSpace(cookieHeader[valStart..valStart + semi]);
        start := valStart + semi + 1;
        SliceOfTail(cookieHeader, valStart, start);
      }
      out := Store(out, name, val);
    }
    assert cookieHeader[start..] == [];
    ScanEmpty(out);
  }

  lemma SliceOfTail(s: Bytes, a: nat, b: nat)
    requires a <= b <= |s|
    ensures s[a..b] == s[a..][..b - a] && s[b..] == s[a..][b - a..]
  {
  }

  lemma ScanEmpty(out: ChallengeCookies)
    ensures Scan([], out) == out
  {
  }

  /** One pass of the outer loop. */
  lemma ScanStep(s: Bytes, out: ChallengeCookies)
    ensures var t := SkipSeparators(s);
            var eq := IndexByte(t, EQ);
            Scan(s, out) ==
            if eq < 0 then out
            else
              var v := t[eq + 1..];
              var semi := IndexByte(v, SEMI);
              if semi < 0 then Store(out, TrimSpace(t[..eq]), TrimSpace(v))
              else Scan(v[semi + 1..], Store(out, TrimSpace(t[..eq]), TrimSpace(v[..semi])))
  {
    hide TrimSpace, Store, IndexByte, SkipSeparators;
  }

  lemma ScanBlank(s: Bytes, out: ChallengeCookies)
    requires SkipSeparators(s) == []
    ensures Scan(s, out) == out
  {
  }

  // ------------------------------------------------------------------ getCookie

  /** `strings.Index`. */
  function IndexOf(s: Bytes, sub: Bytes): (r: int)
    ensures r >= 0 ==> r + |sub| <= |s|
  {
    if sub <= s then 0
    else if |s| == 0 then -1
    else
      var k := IndexOf(s[1..], sub);
      if k < 0 then -1 else k + 1
  }

  /** The text up to the next `;`, trimmed. */
  function ValueAt(rest: Bytes): Bytes {
    var idx := IndexByte(rest, SEMI);
    TrimSpace(if idx >= 0 then rest[..idx] else rest)
  }

  function GetCookie(cookieHeader: Bytes, name: Bytes): Bytes {
    var prefix := name + [EQ];
    var search, search2 := [SEMI, SPACE] + prefix, [SEMI] + prefix;
    if cookieHeader == [] then []
    else if prefix <= cookieHeader then ValueAt(cookieHeader[|prefix|..])
    else if IndexOf(cookieHeader, search) >= 0 then
      ValueAt(cookieHeader[IndexOf(cookieHeader, search) + |search|..])
    else if IndexOf(cookieHeader, search2) >= 0 then
      ValueAt(cookieHeader[IndexOf(cookieHeader, search2) + |search2|..])
    else []
  }

  // ----------------------------------------- well-formed cookie strings

  datatype Pair = Pair(name: Bytes, value: Bytes)

  predicate TokenChar(b: byte) {
    33 <= b <= 126 && b != '"' as int && b != ',' as int && b != '/' as int && !(40 <= b <= 41)
    && !(58 <= b <= 64) && !(91 <= b <= 93) && b != '{' as int && b != '}' as int
  }

  predicate CookieOctet(b: byte) {
    b == 0x21 || 0x23 <= b <= 0x2b || 0x2d <= b <= 0x3a || 0x3c <= b <= 0x5b || 0x5d <= b <= 0x7e
  }

  predicate CookieName(s: Bytes) { |s| > 0 && forall i :: 0 <= i < |s| ==> TokenChar(s[i]) }

  predicate Octets(s: Bytes) { forall i :: 0 <= i < |s| ==> CookieOctet(s[i]) }

  /** Cookie octets, optionally between double quotes. */
  predicate CookieValue(s: Bytes) {
    Octets(s) || (|s| >= 2 && s[0] == s[|s| - 1] == '"' as int && Octets(s[1..|s| - 1]))
  }

  predicate WellFormed(pairs: seq<Pair>) {
    forall i :: 0 <= i < |pairs| ==> CookieName(pairs[i].name) && CookieValue(pairs[i].value)
  }

  function PairText(p: Pair): Bytes { p.name + [EQ] + p.value }

  /** The cookie-string of section 4.2.1: pairs joined by a semicolon and a space. */
  function CookieString(pairs: seq<Pair>): Bytes {
    if |pairs| == 0 then []
    else if |pairs| == 1 then PairText(pairs[0])
    else PairText(pairs[0]) + ([SEMI, SPACE] + CookieString(pairs[1..]))
  }

  function FirstValue(pairs: seq<Pair>, name: Bytes): Bytes {
    if |pairs| == 0 then []
    else if pairs[0].name == name then pairs[0].value
    else FirstValue(pairs[1..], name)
  }

  function LastValue(pairs: seq<Pair>, name: Bytes): Bytes {
    if |pairs| == 0 then []
    else if pairs[|pairs| - 1].name == name then pairs[|pairs| - 1].value
    else LastValue(pairs[..|pairs| - 1], name)
  }

  predicate DistinctNames(pairs: seq<Pair>) {
    forall i, j :: 0 <= i < j < |pairs| ==> pairs[i].name != pairs[j].name
  }

  lemma PlainPair(p: Pair)
    requires CookieName(p.name) && CookieValue(p.value)
    ensures SpaceFree(p.name) && EQ !in p.name && SEMI !in p.name
    ensures SpaceFree(p.value) && SEMI !in p.value
  {
    forall i | 0 <= i < |p.name|
      ensures !IsSpace(p.name[i]) && p.name[i] != EQ && p.name[i] != SEMI
    {
      assert TokenChar(p.name[i]);
    }
    forall i | 0 <= i < |p.value|
      ensures !IsSpace(p.value[i]) && p.value[i] != SEMI
    {
      if !Octets(p.value) && 0 < i < |p.value| - 1 {
        assert CookieOctet(p.value[1..|p.value| - 1][i - 1]);
      }
    }
  }

  lemma TrimPlain(s: Bytes)
    requires SpaceFree(s)
    ensures TrimSpace(s) == s
  {
  }

  // -------------------------------------- the scanner on well-formed strings

  function StoreAll(pairs: seq<Pair>, out: ChallengeCookies): ChallengeCookies {
    if |pairs| == 0 then out else StoreAll(pairs[1..], Store(out, pairs[0].name, pairs[0].value))
  }

  /** The scanner at a plain name. */
  lemma ScanName(name: Bytes, v: Bytes, out: ChallengeCookies)
    requires CookieName(name) && SpaceFree(name) && EQ !in name
    ensures Scan(name + [EQ] + v, out)
            == var semi := IndexByte(v, SEMI);
               if semi < 0 then Store(out, name, TrimSpace(v))
               else Scan(v[semi + 1..], Store(out, name, TrimSpace(v[..semi])))
  {
    hide IndexByte, Store, TrimSpace;
    var s := name + [EQ] + v;
    assert TokenChar(name[0]) && s[0] == name[0];
    assert SkipSeparators(s) == s;
    IndexByteAt(name, EQ, v);
    TrimPlain(name);
    assert s[..|name|] == name && s[|name| + 1..] == v;
  }

  /** One step of the scanner over a pair, last or followed by more. */
  lemma ScanPair(p: Pair, rest: Bytes, out: ChallengeCookies)
    requires CookieName(p.name) && CookieValue(p.value)
    ensures Scan(PairText(p), out) == Store(out, p.name, p.value)
    ensures Scan(PairText(p) + ([SEMI, SPACE] + rest), out) == Scan([SPACE] + rest, Store(out, p.name, p.value))
  {
    hide IndexByte, Store, TrimSpace, Scan, CookieName, CookieValue, SpaceFree;
    PlainPair(p);
    TrimPlain(p.value);
    ScanName(p.name, p.value, out);
    var tail := p.value + [SEMI] + ([SPACE] + rest);
    ScanName(p.name, tail, out);
    assert PairText(p) + ([SEMI, SPACE] + rest) == p.name + [EQ] + tail;
    IndexByteAt(p.value, SEMI, [SPACE] + rest);
    assert tail[..|p.value|] == p.value && tail[|p.value| + 1..] == [SPACE] + rest;
  }

  lemma ScanSkipsSpace(s: Bytes, out: ChallengeCookies)
    ensures Scan([SPACE] + s, out) == Scan(s, out)
  {
    hide IndexByte, Store, TrimSpace;
    assert ([SPACE] + s)[1..] == s;
  }

  lemma {:induction false} ScanStoresAll(pairs: seq<Pair>, out: ChallengeCookies)
    requires WellFormed(pairs)
    ensures Scan(CookieString(pairs), out) == StoreAll(pairs, out)
  {
    hide Scan, Store;
    if |pairs| == 0 {
      ScanEmpty(out);
    } else {
      var rest, next := CookieString(pairs[1..]), Store(out, pairs[0].name, pairs[0].value);
      ScanPair(pairs[0], rest, out);
      if |pairs| == 1 {
        assert StoreAll(pairs[1..], next) == next;
      } else {
        ScanSkipsSpace(rest, next);
        ScanStoresAll(pairs[1..], next);
      }
    }
  }

  function Field(c: ChallengeCookies, name: Bytes): Bytes {
    if name == CLEARANCE then c.clearance
    else if name == CHALLENGE then c.challenge
    else if name == SIGNATURE then c.signature
    else c.nonce
  }

  predicate ChallengeName(name: Bytes) { name in {CLEARANCE, CHALLENGE, SIGNATURE, NONCE} }

  lemma NamesDiffer()
    ensures |CLEARANCE| == 19 && |CHALLENGE| == 9 && |SIGNATURE| == 13 && |NONCE| == 15
    ensures CookieName(CLEARANCE) && CookieName(CHALLENGE) && CookieName(SIGNATURE) && CookieName(NONCE)
  {
  }

  lemma {:induction false} StoreAllAppend(pairs: seq<Pair>, p: Pair, out: ChallengeCookies)
    ensures StoreAll(pairs + [p], out) == Store(StoreAll(pairs, out), p.name, p.value)
  {
    if |pairs| == 0 {
      assert (pairs + [p])[1..] == [];
    } else {
      assert (pairs + [p])[1..] == pairs[1..] + [p];
      StoreAllAppend(pairs[1..], p, Store(out, pairs[0].name, pairs[0].value));
    }
  }

  lemma {:induction false} StoredIsLast(pairs: seq<Pair>, name: Bytes)
    requires ChallengeName(name)
    ensures Field(StoreAll(pairs, NO_COOKIES), name) == LastValue(pairs, name)
  {
    NamesDiffer();
    if |pairs| > 0 {
      var front, p := pairs[..|pairs| - 1], pairs[|pairs| - 1];
      assert pairs == front + [p];
      StoreAllAppend(front, p, NO_COOKIES);
      StoredIsLast(front, name);
    }
  }

  /** On every well-formed cookie string the scanner returns the last value of
      each of the four names. */
  lemma ScannerTakesLast(pairs: seq<Pair>, name: Bytes)
    requires WellFormed(pairs) && ChallengeName(name)
    ensures Field(Scan(CookieString(pairs), NO_COOKIES), name) == LastValue(pairs, name)
  {
    ScanStoresAll(pairs, NO_COOKIES);
    StoredIsLast(pairs, name);
  }

  // ------------------------------------------------- a clearance and its echo

  function SetCookie(name: Bytes, value: Bytes, maxAge: int, httpOnly: bool, secure: bool): Bytes {
    name + [EQ] + value + Ascii("; Path=/; Max-Age=") + Itoa(maxAge) + Ascii("; SameSite=Lax")
    + (if httpOnly then Ascii("; HttpOnly") else []) + (if secure then Ascii("; Secure") else [])
  }

  /** `clearCookie`: Max-Age 0 deletes. */
  function ClearCookie(name: Bytes, secure: bool): Bytes {
    name + [EQ] + Ascii("; Path=/; Max-Age=0; SameSite=Lax") + (if secure then Ascii("; Secure") else [])
    + (if name == CLEARANCE then Ascii("; HttpOnly") else [])
  }

  /** The pair a client keeps from a Set-Cookie line (section 5.2 of RFC 6265):
      the text before the first semicolon, split at its first `=`. */
  function StoredPair(line: Bytes): Pair {
    var i := IndexByte(line, SEMI);
    var nv := if i < 0 then line else line[..i];
    var eq := IndexByte(nv, EQ);
    if eq < 0 then Pair([], nv) else Pair(TrimSpace(nv[..eq]), TrimSpace(nv[eq + 1..]))
  }

  lemma StoredAsSet(p: Pair, maxAge: int, httpOnly: bool, secure: bool)
    requires CookieName(p.name) && CookieValue(p.value)
    ensures StoredPair(SetCookie(p.name, p.value, maxAge, httpOnly, secure)) == p
  {
    hide IndexByte, TrimSpace, Itoa, CookieName, CookieValue;
    PlainPair(p);
    TrimPlain(p.name);
    TrimPlain(p.value);
    var line := SetCookie(p.name, p.value, maxAge, httpOnly, secure);
    var text := p.name + [EQ] + p.value;
    assert SEMI !in text;
    assert Ascii("; Path=/; Max-Age=")[0] == SEMI;
    assert line[|text|] == SEMI && line[..|text|] == text;
    assert line == text + [SEMI] + line[|text| + 1..];
    IndexByteAt(text, SEMI, line[|text| + 1..]);
    IndexByteAt(p.name, EQ, p.value);
    assert text[..|p.name|] == p.name && text[|p.name| + 1..] == p.value;
  }

  /** A cleared cookie is left with the empty value. */
  lemma ClearedIsEmpty(name: Bytes, secure: bool)
    requires CookieName(name)
    ensures StoredPair(ClearCookie(name, secure)) == Pair(name, [])
  {
    hide IndexByte, TrimSpace, CookieName, CookieValue, Octets;
    assert CookieValue([]) by {
      EmptyValue();
    }
    PlainPair(Pair(name, []));
    TrimPlain(name);
    TrimPlain([]);
    var line := ClearCookie(name, secure);
    var text := name + [EQ];
    assert SEMI !in text;
    assert Ascii("; Path=/; Max-Age=0; SameSite=Lax")[0] == SEMI;
    assert line[|text|] == SEMI && line[..|text|] == text;
    assert line == text + [SEMI] + line[|text| + 1..];
    IndexByteAt(text, SEMI, line[|text| + 1..]);
    IndexByteAt(name, EQ, []);
    assert text + [] == text && text[..|name|] == name && text[|name| + 1..] == [];
  }

  lemma EmptyValue()
    ensures CookieValue([])
  {
    assert Octets([]);
  }

  lemma TokenIsCookieValue(mac: Mac, body: Bytes)
    requires InUrlAlphabet(body)
    ensures CookieValue(Token(mac, body))
  {
    var t, sig := Token(mac, body), Sign(mac, body);
    forall i | 0 <= i < |t|
      ensures CookieOctet(t[i])
    {
      if i < |body| {
        UrlAlphabetIsPlain(body, i);
      } else if i > |body| {
        UrlAlphabetIsPlain(sig, i - |body| - 1);
      }
    }
    assert Octets(t);
  }

  /** A clearance minted for any int64 expiry, salt and IP, set as a cookie and
      echoed among any other well-formed cookies of other names, is recovered
      exactly, and yields its expiry to the client it is bound to. */
  lemma EchoedClearance(mac: Mac, exp: int, salt: Bytes, ip: Bytes, maxAge: int, secure: bool,
                        before: seq<Pair>, after: seq<Pair>)
    requires IsMac(mac) && Int64(exp) && WellFormed(before) && WellFormed(after)
    requires forall i :: 0 <= i < |before| ==> before[i].name != CLEARANCE
    requires forall i :: 0 <= i < |after| ==> after[i].name != CLEARANCE
    ensures var token := Token(mac, ClearanceBody(exp, salt, ip));
            var kept := StoredPair(SetCookie(CLEARANCE, token, maxAge, true, secure));
            var got := Scan(CookieString(before + [kept] + after), NO_COOKIES).clearance;
            got == token && ParseClearance(mac, got, ip) == Ok(exp)
  {
    hide ParseClearance, Scan, CookieString, SetCookie, StoredPair, CookieValue, CookieName, ClearanceBody;
    var body := ClearanceBody(exp, salt, ip);
    var token := Token(mac, body);
    var p := Pair(CLEARANCE, token);
    NamesDiffer();
    assert InUrlAlphabet(body) by {
      EncodedBody(exp, salt, ip);
    }
    TokenIsCookieValue(mac, body);
    StoredAsSet(p, maxAge, true, secure);
    JoinWellFormed(before, p, after);
    hide WellFormed, Token, CLEARANCE;
    ScannerTakesLast(before + [p] + after, CLEARANCE);
    LastAmongOthers(before, p, after);
    MintedClearanceParses(mac, exp, salt, ip, ip);
  }

  lemma JoinWellFormed(before: seq<Pair>, p: Pair, after: seq<Pair>)
    requires WellFormed(before) && WellFormed(after) && CookieName(p.name) && CookieValue(p.value)
    ensures WellFormed(before + [p] + after)
  {
    hide CookieName, CookieValue;
  }

  lemma EncodedBody(exp: int, salt: Bytes, ip: Bytes)
    ensures InUrlAlphabet(ClearanceBody(exp, salt, ip))
  {
  }

  lemma {:induction false} LastAmongOthers(before: seq<Pair>, p: Pair, after: seq<Pair>)
    requires forall i :: 0 <= i < |after| ==> after[i].name != p.name
    ensures LastValue(before + [p] + after, p.name) == p.value
  {
    var all := before + [p] + after;
    if |after| == 0 {
      assert all[|all| - 1] == p;
    } else {
      assert all[..|all| - 1] == before + [p] + after[..|after| - 1];
      LastAmongOthers(before, p, after[..|after| - 1]);
    }
  }
}
