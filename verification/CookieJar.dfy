/** What a client does with Set-Cookie lines (sections 5.2 to 5.4 of RFC 6265): it
    reads the attributes, stores the cookie with them, or drops the name when
    Max-Age is not positive. All lines here are for one host. */
module CookieJar {
  import opened GoBytes
  import opened Cookies

  datatype Attribute = Attribute(name: Bytes, value: Bytes)

  /** A stored cookie; `maxAge` is None for one that lasts as long as the session. */
  datatype Stored = Stored(value: Bytes, maxAge: Option<int>, path: Bytes, sameSite: Bytes, secure: bool, httpOnly: bool)

  type Jar = map<Bytes, Stored>

  const MINUS: byte := '-' as int

  // --------------------------------------------------------------- reading

  /** One attribute; its name is compared without regard to case. */
  function ReadAttribute(av: Bytes): Attribute {
    var eq := IndexByte(av, EQ);
    if eq < 0 then Attribute(Lower(TrimSpace(av)), [])
    else Attribute(Lower(TrimSpace(av[..eq])), TrimSpace(av[eq + 1..]))
  }

  function ReadAttributes(s: Bytes): seq<Attribute>
    decreases |s|
  {
    var i := IndexByte(s, SEMI);
    if i < 0 then [ReadAttribute(s)] else [ReadAttribute(s[..i])] + ReadAttributes(s[i + 1..])
  }

  /** The attributes of a line: what follows its first semicolon. */
  function AttributesOf(line: Bytes): seq<Attribute> {
    var i := IndexByte(line, SEMI);
    if i < 0 then [] else ReadAttributes(line[i + 1..])
  }

  predicate Has(attrs: seq<Attribute>, name: Bytes) { exists i :: 0 <= i < |attrs| && attrs[i].name == name }

  /** The last value of an attribute, or the empty one. */
  function LastOf(attrs: seq<Attribute>, name: Bytes): Bytes {
    if |attrs| == 0 then []
    else if attrs[|attrs| - 1].name == name then attrs[|attrs| - 1].value
    else LastOf(attrs[..|attrs| - 1], name)
  }

  /** A delta-seconds value; anything else is ignored. */
  function ParseAge(v: Bytes): Option<int> {
    if v == [] then None
    else if AllDigits(v) then Some(DigitsValue(v))
    else if v[0] == MINUS && |v| > 1 && AllDigits(v[1..]) then Some(-(DigitsValue(v[1..]) as int))
    else None
  }

  /** The last Max-Age that is a number. */
  function AgeOf(attrs: seq<Attribute>): Option<int> {
    if |attrs| == 0 then None
    else
      var last := attrs[|attrs| - 1];
      if last.name == Ascii("max-age") && ParseAge(last.value).Some? then ParseAge(last.value)
      else AgeOf(attrs[..|attrs| - 1])
  }

  function Receive(jar: Jar, line: Bytes): Jar {
    var p, attrs := StoredPair(line), AttributesOf(line);
    var age := AgeOf(attrs);
    if p.name == [] then jar
    else if age.Some? && age.value <= 0 then jar - {p.name}
    else
      jar[p.name := Stored(p.value, age, LastOf(attrs, Ascii("path")), LastOf(attrs, Ascii("samesite")),
                           Has(attrs, Ascii("secure")), Has(attrs, Ascii("httponly")))]
  }

  /** The part of a jar that scripts can read. */
  function Visible(jar: Jar): map<Bytes, Bytes> { map n | n in jar && !jar[n].httpOnly :: jar[n].value }

  // ------------------------------------------------------ attributes written

  lemma OneAttribute(av: Bytes, rest: Bytes)
    requires SEMI !in av
    ensures ReadAttributes(av) == [ReadAttribute(av)]
    ensures ReadAttributes(av + ([SEMI] + rest)) == [ReadAttribute(av)] + ReadAttributes(rest)
  {
    hide ReadAttribute, IndexByte;
    assert av + ([SEMI] + rest) == av + [SEMI] + rest;
    IndexByteAt(av, SEMI, rest);
    var s := av + [SEMI] + rest;
    assert s[..|av|] == av && s[|av| + 1..] == rest;
    assert IndexByte(av, SEMI) < 0;
  }

  lemma TrimOneSpace(s: Bytes)
    requires SpaceFree(s)
    ensures TrimSpace([SPACE] + s) == s
  {
    assert ([SPACE] + s)[1..] == s;
    TrimPlain(s);
  }

  lemma FlagAttribute(name: Bytes)
    requires SpaceFree(name) && EQ !in name
    ensures ReadAttribute([SPACE] + name) == Attribute(Lower(name), [])
  {
    hide IndexByte, TrimSpace;
    TrimOneSpace(name);
  }

  lemma NamedAttribute(name: Bytes, value: Bytes)
    requires SpaceFree(name) && EQ !in name && SpaceFree(value)
    ensures ReadAttribute([SPACE] + name + [EQ] + value) == Attribute(Lower(name), value)
  {
    hide IndexByte, TrimSpace, Lower;
    var a := [SPACE] + name;
    IndexByteAt(a, EQ, value);
    var s := a + [EQ] + value;
    assert s[..|a|] == a && s[|a| + 1..] == value;
    TrimOneSpace(name);
    TrimPlain(value);
  }

  lemma AgeReadsBack(n: int)
    ensures ParseAge(Itoa(n)) == Some(n) && SpaceFree(Itoa(n)) && SEMI !in Itoa(n)
  {
    var d := Decimal(if n < 0 then -n else n);
    DecimalValue(if n < 0 then -n else n);
    assert forall i :: 0 <= i < |d| ==> IsDigit(d[i]);
    assert Itoa(n) == if n < 0 then [MINUS] + d else d;
    if n < 0 {
      assert ([MINUS] + d)[1..] == d && !IsDigit(([MINUS] + d)[0]);
    }
  }

  /** The attributes the filter means to write. */
  function Written(maxAge: int, flags: seq<Attribute>): seq<Attribute> {
    [Attribute(Ascii("path"), Ascii("/")), Attribute(Ascii("max-age"), Itoa(maxAge)),
     Attribute(Ascii("samesite"), Ascii("Lax"))] + flags
  }

  function Flag(on: bool, name: Bytes): seq<Attribute> { if on then [Attribute(name, [])] else [] }

  lemma PathAttribute()
    ensures ReadAttribute(Ascii(" Path=/")) == Attribute(Ascii("path"), Ascii("/")) && SEMI !in Ascii(" Path=/")
  {
    hide ReadAttribute;
    var name, value := Ascii("Path"), Ascii("/");
    assert Ascii(" Path=/") == [SPACE] + name + [EQ] + value;
    assert Lower(name) == Ascii("path");
    NamedAttribute(name, value);
  }

  lemma SiteLiterals()
    ensures Ascii(" SameSite=Lax") == [SPACE] + Ascii("SameSite") + [EQ] + Ascii("Lax")
    ensures Lower(Ascii("SameSite")) == Ascii("samesite")
  {
  }

  lemma SiteAttribute()
    ensures ReadAttribute(Ascii(" SameSite=Lax")) == Attribute(Ascii("samesite"), Ascii("Lax")) && SEMI !in Ascii(" SameSite=Lax")
  {
    hide ReadAttribute, Lower;
    SiteLiterals();
    NamedAttribute(Ascii("SameSite"), Ascii("Lax"));
  }

  lemma AgeAttribute(n: int)
    ensures ReadAttribute(Ascii(" Max-Age=") + Itoa(n)) == Attribute(Ascii("max-age"), Itoa(n))
    ensures SEMI !in Ascii(" Max-Age=") + Itoa(n)
  {
    hide ReadAttribute, Itoa;
    var name := Ascii("Max-Age");
    AgeReadsBack(n);
    assert Ascii(" Max-Age=") == [SPACE] + name + [EQ];
    assert Lower(name) == Ascii("max-age");
    NamedAttribute(name, Itoa(n));
  }

  lemma HttpOnlyAttribute()
    ensures ReadAttribute(Ascii(" HttpOnly")) == Attribute(Ascii("httponly"), []) && SEMI !in Ascii(" HttpOnly")
  {
    hide ReadAttribute;
    var name := Ascii("HttpOnly");
    assert Ascii(" HttpOnly") == [SPACE] + name;
    assert Lower(name) == Ascii("httponly");
    FlagAttribute(name);
  }

  lemma SecureAttribute()
    ensures ReadAttribute(Ascii(" Secure")) == Attribute(Ascii("secure"), []) && SEMI !in Ascii(" Secure")
  {
    hide ReadAttribute;
    var name := Ascii("Secure");
    assert Ascii(" Secure") == [SPACE] + name;
    assert Lower(name) == Ascii("secure");
    FlagAttribute(name);
  }

  /** What follows the name and value, split at its semicolons. */
  function Joined(avs: seq<Bytes>): Bytes
    requires |avs| > 0
  {
    if |avs| == 1 then avs[0] else avs[0] + ([SEMI] + Joined(avs[1..]))
  }

  function ReadEach(avs: seq<Bytes>): seq<Attribute> { seq(|avs|, i requires 0 <= i < |avs| => ReadAttribute(avs[i])) }

  lemma {:induction false} ReadJoined(avs: seq<Bytes>)
    requires |avs| > 0 && forall i :: 0 <= i < |avs| ==> SEMI !in avs[i]
    ensures ReadAttributes(Joined(avs)) == ReadEach(avs)
  {
    hide ReadAttributes, ReadAttribute;
    if |avs| == 1 {
      OneAttribute(avs[0], []);
    } else {
      OneAttribute(avs[0], Joined(avs[1..]));
      ReadJoined(avs[1..]);
      assert ReadEach(avs) == [ReadAttribute(avs[0])] + ReadEach(avs[1..]);
    }
  }

  lemma AttributesAfter(text: Bytes, avs: seq<Bytes>)
    requires SEMI !in text && |avs| > 0 && forall i :: 0 <= i < |avs| ==> SEMI !in avs[i]
    ensures AttributesOf(text + ([SEMI] + Joined(avs))) == ReadEach(avs)
  {
    hide ReadAttributes, IndexByte, Joined, ReadEach;
    var attrs := Joined(avs);
    var line := text + [SEMI] + attrs;
    assert text + ([SEMI] + attrs) == line;
    IndexByteAt(text, SEMI, attrs);
    assert line[|text| + 1..] == attrs;
    ReadJoined(avs);
  }

  lemma Associate(a: Bytes, b: Bytes, c: Bytes)
    ensures a + b + c == a + (b + c)
  {
  }

  /** Appending one more attribute. */
  lemma {:induction false} JoinedMore(avs: seq<Bytes>, av: Bytes)
    requires |avs| > 0
    ensures Joined(avs + [av]) == Joined(avs) + ([SEMI] + av)
  {
    if |avs| == 1 {
      assert (avs + [av])[1..] == [av];
    } else {
      assert (avs + [av])[1..] == avs[1..] + [av];
      JoinedMore(avs[1..], av);
      Associate(avs[0], [SEMI] + Joined(avs[1..]), [SEMI] + av);
      Associate([SEMI], Joined(avs[1..]), [SEMI] + av);
    }
  }

  function Fixed(maxAge: int): seq<Bytes> {
    [Ascii(" Path=/")] + [Ascii(" Max-Age=") + Itoa(maxAge)] + [Ascii(" SameSite=Lax")]
  }

  /** A line up to its flags. */
  lemma FixedLine(text: Bytes, maxAge: int)
    ensures text + Ascii("; Path=/; Max-Age=") + Itoa(maxAge) + Ascii("; SameSite=Lax") == text + ([SEMI] + Joined(Fixed(maxAge)))
  {
    hide Itoa, Ascii, Joined;
    FixedLiterals();
    var p, m, s, n := Ascii(" Path=/"), Ascii(" Max-Age="), Ascii(" SameSite=Lax"), Itoa(maxAge);
    JoinedOne(p);
    JoinedMore([p], m + n);
    JoinedMore([p] + [m + n], s);
    assert Joined(Fixed(maxAge)) == p + ([SEMI] + (m + n)) + ([SEMI] + s);
    FixedJoins(text, p, m, n, s);
  }

  lemma JoinedOne(av: Bytes)
    ensures Joined([av]) == av
  {
  }

  lemma FixedLiterals()
    ensures Ascii("; Path=/; Max-Age=") == [SEMI] + Ascii(" Path=/") + ([SEMI] + Ascii(" Max-Age="))
    ensures Ascii("; SameSite=Lax") == [SEMI] + Ascii(" SameSite=Lax")
  {
  }

  lemma FixedJoins(text: Bytes, p: Bytes, m: Bytes, n: Bytes, s: Bytes)
    ensures text + ([SEMI] + p + ([SEMI] + m)) + n + ([SEMI] + s) == text + ([SEMI] + (p + ([SEMI] + (m + n)) + ([SEMI] + s)))
  {
  }

  lemma FlagLiterals()
    ensures Ascii("; HttpOnly") == [SEMI] + Ascii(" HttpOnly") && Ascii("; Secure") == [SEMI] + Ascii(" Secure")
  {
  }

  lemma ReadFixed(maxAge: int)
    ensures forall i :: 0 <= i < |Fixed(maxAge)| ==> SEMI !in Fixed(maxAge)[i]
    ensures ReadEach(Fixed(maxAge)) == Written(maxAge, [])
  {
    hide ReadAttribute, Itoa, Ascii;
    PathAttribute();
    AgeAttribute(maxAge);
    SiteAttribute();
  }

  lemma ReadEachMore(avs: seq<Bytes>, av: Bytes)
    ensures ReadEach(avs + [av]) == ReadEach(avs) + [ReadAttribute(av)]
  {
    hide ReadAttribute;
  }

  /** A line with one more attribute at its end. */
  lemma LineMore(text: Bytes, avs: seq<Bytes>, av: Bytes)
    requires |avs| > 0
    ensures text + ([SEMI] + Joined(avs)) + ([SEMI] + av) == text + ([SEMI] + Joined(avs + [av]))
    ensures ReadEach(avs + [av]) == ReadEach(avs) + [ReadAttribute(av)]
  {
    hide Joined, ReadEach;
    ReadEachMore(avs, av);
    JoinedMore(avs, av);
    Associate(text, [SEMI] + Joined(avs), [SEMI] + av);
    Associate([SEMI], Joined(avs), [SEMI] + av);
  }

  /** One optional flag after a line. */
  lemma LineFlag(text: Bytes, avs: seq<Bytes>, on: bool, av: Bytes) returns (more: seq<Bytes>)
    requires |avs| > 0 && SEMI !in av && forall i :: 0 <= i < |avs| ==> SEMI !in avs[i]
    ensures |more| > 0 && forall i :: 0 <= i < |more| ==> SEMI !in more[i]
    ensures text + ([SEMI] + Joined(avs)) + (if on then [SEMI] + av else []) == text + ([SEMI] + Joined(more))
    ensures ReadEach(more) == ReadEach(avs) + if on then [ReadAttribute(av)] else []
  {
    hide Joined, ReadEach;
    more := if on then avs + [av] else avs;
    LineMore(text, avs, av);
    assert text + ([SEMI] + Joined(avs)) + [] == text + ([SEMI] + Joined(avs));
    assert ReadEach(avs) + [] == ReadEach(avs);
  }

  /** Every attribute of a printed cookie, in order: the path is `/`, Max-Age is the
      number given, SameSite is Lax, and each flag is there exactly when asked for. */
  lemma SetCookieAttributes(p: Pair, maxAge: int, httpOnly: bool, secure: bool)
    requires CookieName(p.name) && CookieValue(p.value)
    ensures AttributesOf(SetCookie(p.name, p.value, maxAge, httpOnly, secure))
            == Written(maxAge, Flag(httpOnly, Ascii("httponly")) + Flag(secure, Ascii("secure")))
  {
    hide AttributesOf, Joined, ReadEach, ReadAttribute, Itoa, Ascii, CookieName, CookieValue, Fixed;
    PlainPair(p);
    FlagLiterals();
    HttpOnlyAttribute();
    SecureAttribute();
    var text, avs := PairText(p), Fixed(maxAge);
    ReadFixed(maxAge);
    assert |avs| > 0 by {
      FixedCount(maxAge);
    }
    FixedLine(text, maxAge);
    var with1 := LineFlag(text, avs, httpOnly, Ascii(" HttpOnly"));
    var with2 := LineFlag(text, with1, secure, Ascii(" Secure"));
    assert SetCookie(p.name, p.value, maxAge, httpOnly, secure) == text + ([SEMI] + Joined(with2));
    AttributesAfter(text, with2);
    WrittenFlags(maxAge, Flag(httpOnly, Ascii("httponly")), Flag(secure, Ascii("secure")));
  }

  lemma FixedCount(maxAge: int)
    ensures |Fixed(maxAge)| == 3
  {
  }

  lemma WrittenFlags(maxAge: int, f: seq<Attribute>, g: seq<Attribute>)
    ensures Written(maxAge, []) + f + g == Written(maxAge, f + g)
  {
    hide Itoa, Ascii;
  }

  /** The same of a cleared cookie: Max-Age is 0. */
  lemma ClearCookieAttributes(name: Bytes, secure: bool)
    requires CookieName(name)
    ensures AttributesOf(ClearCookie(name, secure))
            == Written(0, Flag(secure, Ascii("secure")) + Flag(name == CLEARANCE, Ascii("httponly")))
  {
    hide AttributesOf, Joined, ReadEach, ReadAttribute, Itoa, Ascii, CookieName, CookieValue, Fixed, CLEARANCE;
    EmptyValue();
    PlainPair(Pair(name, []));
    FlagLiterals();
    ZeroAge();
    HttpOnlyAttribute();
    SecureAttribute();
    var text, avs := name + [EQ], Fixed(0);
    assert PairText(Pair(name, [])) == text;
    ReadFixed(0);
    FixedCount(0);
    FixedLine(text, 0);
    Associate(text, Ascii("; Path=/; Max-Age=") + Itoa(0), Ascii("; SameSite=Lax"));
    Associate(text, Ascii("; Path=/; Max-Age="), Itoa(0));
    var with1 := LineFlag(text, avs, secure, Ascii(" Secure"));
    var with2 := LineFlag(text, with1, name == CLEARANCE, Ascii(" HttpOnly"));
    assert ClearCookie(name, secure) == text + ([SEMI] + Joined(with2));
    AttributesAfter(text, with2);
    WrittenFlags(0, Flag(secure, Ascii("secure")), Flag(name == CLEARANCE, Ascii("httponly")));
  }

  lemma ZeroAge()
    ensures Ascii("; Path=/; Max-Age=0; SameSite=Lax") == Ascii("; Path=/; Max-Age=") + Itoa(0) + Ascii("; SameSite=Lax")
  {
    assert Itoa(0) == [48];
    var all, a, b := Ascii("; Path=/; Max-Age=0; SameSite=Lax"), Ascii("; Path=/; Max-Age="), Ascii("; SameSite=Lax");
    assert all[..|a|] == a && all[|a|] == 48 && all[|a| + 1..] == b;
  }

  // ----------------------------------------------------------- what is kept

  /** The cookie a client keeps of a line with these attributes. */
  function Kept(value: Bytes, maxAge: int, httpOnly: bool, secure: bool): Stored {
    Stored(value, Some(maxAge), Ascii("/"), Ascii("Lax"), secure, httpOnly)
  }

  lemma AttributeNamesDiffer()
    ensures |Ascii("path")| == 4 && |Ascii("max-age")| == 7 && |Ascii("samesite")| == 8
    ensures |Ascii("secure")| == 6 && |Ascii("httponly")| == 8 && Ascii("httponly") != Ascii("samesite")
  {
    assert Ascii("httponly")[0] != Ascii("samesite")[0];
  }

  lemma SkipFlag(attrs: seq<Attribute>, f: Attribute, name: Bytes)
    requires f.name != name
    ensures LastOf(attrs + [f], name) == LastOf(attrs, name)
    ensures f.name != Ascii("max-age") ==> AgeOf(attrs + [f]) == AgeOf(attrs)
  {
    hide ParseAge;
    assert (attrs + [f])[..|attrs|] == attrs;
  }

  lemma FixedValues(maxAge: int)
    ensures AgeOf(Written(maxAge, [])) == Some(maxAge)
    ensures LastOf(Written(maxAge, []), Ascii("path")) == Ascii("/")
    ensures LastOf(Written(maxAge, []), Ascii("samesite")) == Ascii("Lax")
  {
    hide Itoa, ParseAge, Ascii;
    AttributeNamesDiffer();
    AgeReadsBack(maxAge);
    var a, b := Attribute(Ascii("path"), Ascii("/")), Attribute(Ascii("max-age"), Itoa(maxAge));
    var c := Attribute(Ascii("samesite"), Ascii("Lax"));
    assert Written(maxAge, []) == [a] + [b] + [c];
    assert ([a] + [b] + [c])[..2] == [a] + [b] && ([a] + [b])[..1] == [a];
    SkipFlag([a] + [b], c, Ascii("path"));
    SkipFlag([a], b, Ascii("path"));
    assert [a][..0] == [];
  }

  /** Flags change neither the age nor the values. */
  lemma FlagsKeepValues(attrs: seq<Attribute>, on: bool, name: Bytes)
    requires name == Ascii("secure") || name == Ascii("httponly")
    ensures AgeOf(attrs + Flag(on, name)) == AgeOf(attrs)
    ensures LastOf(attrs + Flag(on, name), Ascii("path")) == LastOf(attrs, Ascii("path"))
    ensures LastOf(attrs + Flag(on, name), Ascii("samesite")) == LastOf(attrs, Ascii("samesite"))
  {
    hide AgeOf, LastOf, Ascii;
    AttributeNamesDiffer();
    if on {
      SkipFlag(attrs, Attribute(name, []), Ascii("path"));
      SkipFlag(attrs, Attribute(name, []), Ascii("samesite"));
    } else {
      assert attrs + [] == attrs;
    }
  }

  lemma HasIn(a: seq<Attribute>, b: seq<Attribute>, name: Bytes)
    ensures Has(a + b, name) <==> Has(a, name) || Has(b, name)
  {
    var all := a + b;
    if i :| 0 <= i < |b| && b[i].name == name {
      assert all[|a| + i] == b[i];
    }
    if i :| 0 <= i < |a| && a[i].name == name {
      assert all[i] == a[i];
    }
    if i :| 0 <= i < |all| && all[i].name == name {
      assert i < |a| ==> a[i] == all[i];
      assert i >= |a| ==> b[i - |a|] == all[i];
    }
  }

  lemma FlagHas(on: bool, flag: Bytes, name: Bytes)
    ensures Has(Flag(on, flag), name) <==> on && flag == name
  {
    assert on ==> Flag(on, flag)[0].name == flag;
  }

  lemma FixedHasNoFlags(maxAge: int)
    ensures !Has(Written(maxAge, []), Ascii("secure")) && !Has(Written(maxAge, []), Ascii("httponly"))
  {
    hide Itoa, Ascii;
    AttributeNamesDiffer();
  }

  /** What a client makes of the attributes written, with two flags in any order. */
  lemma WrittenIsKept(maxAge: int, f: bool, fname: Bytes, g: bool, gname: Bytes)
    requires (fname == Ascii("secure") && gname == Ascii("httponly")) || (fname == Ascii("httponly") && gname == Ascii("secure"))
    ensures var attrs := Written(maxAge, Flag(f, fname) + Flag(g, gname));
            && AgeOf(attrs) == Some(maxAge)
            && LastOf(attrs, Ascii("path")) == Ascii("/") && LastOf(attrs, Ascii("samesite")) == Ascii("Lax")
            && Has(attrs, fname) == f && Has(attrs, gname) == g
  {
    hide AgeOf, LastOf, Has, Written, Flag, Ascii;
    AttributeNamesDiffer();
    var base := Written(maxAge, []);
    WrittenFlags(maxAge, Flag(f, fname), Flag(g, gname));
    FixedValues(maxAge);
    FixedHasNoFlags(maxAge);
    FlagsKeepValues(base, f, fname);
    FlagsKeepValues(base + Flag(f, fname), g, gname);
    HasIn(base + Flag(f, fname), Flag(g, gname), fname);
    HasIn(base + Flag(f, fname), Flag(g, gname), gname);
    HasIn(base, Flag(f, fname), fname);
    HasIn(base, Flag(f, fname), gname);
    FlagHas(f, fname, fname);
    FlagHas(f, fname, gname);
    FlagHas(g, gname, fname);
    FlagHas(g, gname, gname);
  }

  /** A client that gets a printed cookie holds its name and value with exactly the
      attributes asked for, when its Max-Age is positive, and drops the name otherwise. */
  lemma ReceiveSet(jar: Jar, p: Pair, maxAge: int, httpOnly: bool, secure: bool)
    requires CookieName(p.name) && CookieValue(p.value)
    ensures Receive(jar, SetCookie(p.name, p.value, maxAge, httpOnly, secure))
            == if maxAge > 0 then jar[p.name := Kept(p.value, maxAge, httpOnly, secure)] else jar - {p.name}
  {
    hide StoredPair, AttributesOf, SetCookie, Written, Flag, AgeOf, LastOf, Has, CookieValue, Ascii;
    StoredAsSet(p, maxAge, httpOnly, secure);
    SetCookieAttributes(p, maxAge, httpOnly, secure);
    WrittenIsKept(maxAge, httpOnly, Ascii("httponly"), secure, Ascii("secure"));
  }

  /** A client that gets a cleared cookie drops it. */
  lemma ReceiveClear(jar: Jar, name: Bytes, secure: bool)
    requires CookieName(name)
    ensures Receive(jar, ClearCookie(name, secure)) == jar - {name}
  {
    hide StoredPair, AttributesOf, ClearCookie, Written, Flag, AgeOf, LastOf, Has, CookieValue, Ascii;
    ClearedIsEmpty(name, secure);
    ClearCookieAttributes(name, secure);
    WrittenIsKept(0, secure, Ascii("secure"), name == CLEARANCE, Ascii("httponly"));
  }
}
