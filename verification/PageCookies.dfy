/** The challenge page's own access to cookies (challenge.html): `gc` takes apart
    the cookie string that scripts see, `sc` writes a cookie. */
module PageCookies {
  import opened GoBytes
  import opened Cookies
  import opened CookieItems
  import opened CookieJar

  // ---------------------------------------------------------------- reading

  /** JavaScript's `s.split(sub)`. */
  function Split(s: Bytes, sub: Bytes): (parts: seq<Bytes>)
    requires |sub| > 0
    ensures |parts| > 0
    decreases |s|
  {
    var i := IndexOf(s, sub);
    if i < 0 then [s] else [s[..i]] + Split(s[i + |sub|..], sub)
  }

  /** `; name=`. */
  function Mark(name: Bytes): (m: Bytes)
    ensures |m| == |name| + 3
  {
    [SEMI, SPACE] + (name + [EQ])
  }

  /** `gc`; None stands for null. */
  function Gc(cookie: Bytes, name: Bytes): Option<Bytes> {
    var m := Split([SEMI, SPACE] + cookie, Mark(name));
    if |m| == 2 then Some(Split(m[1], [SEMI])[0]) else None
  }

  function Count(pairs: seq<Pair>, name: Bytes): nat {
    if |pairs| == 0 then 0 else (if pairs[0].name == name then 1 else 0) + Count(pairs[1..], name)
  }

  /** The pairs, each after a separator. */
  function Marked(pairs: seq<Pair>): Bytes {
    if |pairs| == 0 then [] else [SEMI, SPACE] + (PairText(pairs[0]) + Marked(pairs[1..]))
  }

  lemma {:induction false} MarkedIsString(pairs: seq<Pair>)
    requires |pairs| > 0
    ensures [SEMI, SPACE] + CookieString(pairs) == Marked(pairs)
  {
    if |pairs| > 1 {
      MarkedIsString(pairs[1..]);
    } else {
      assert PairText(pairs[0]) + [] == PairText(pairs[0]);
    }
  }

  /** `part` is `v`, or goes on after it with a semicolon. */
  predicate Starts(part: Bytes, v: Bytes) { v <= part && (|part| > |v| ==> part[|v|] == SEMI) }

  lemma UpToSemicolon(part: Bytes, v: Bytes)
    requires Starts(part, v) && SEMI !in v
    ensures Split(part, [SEMI])[0] == v
  {
    hide IndexOf;
    if part == v {
      IndexOfSkips(v, [], [SEMI]);
      NothingInEmpty([SEMI]);
      assert v + [] == v;
    } else {
      var rest := part[|v| + 1..];
      assert part == v + ([SEMI] + rest);
      IndexOfSkips(v, [SEMI] + rest, [SEMI]);
      IndexOfStep(SEMI, rest, [SEMI]);
    }
  }

  lemma SplitStep(s: Bytes, sub: Bytes)
    requires |sub| > 0
    ensures var i := IndexOf(s, sub); Split(s, sub) == if i < 0 then [s] else [s[..i]] + Split(s[i + |sub|..], sub)
  {
  }

  lemma SliceLater(pre: Bytes, t: Bytes, i: nat, n: nat)
    requires i + n <= |t|
    ensures (pre + t)[..|pre| + i] == pre + t[..i] && (pre + t)[|pre| + i + n..] == t[i + n..]
  {
  }

  /** Text before the first mark only lengthens the first part. */
  lemma SplitLater(pre: Bytes, t: Bytes, sub: Bytes)
    requires |sub| > 0
    requires IndexOf(pre + t, sub) == if IndexOf(t, sub) < 0 then -1 else |pre| + IndexOf(t, sub)
    ensures Split(pre + t, sub) == [pre + Split(t, sub)[0]] + Split(t, sub)[1..]
  {
    hide Split, IndexOf;
    SplitStep(t, sub);
    SplitStep(pre + t, sub);
    var i := IndexOf(t, sub);
    if i >= 0 {
      SliceLater(pre, t, i, |sub|);
    }
  }

  lemma MarkInFront(v: Bytes, t: Bytes, name: Bytes)
    requires SEMI !in v && name + [EQ] <= t
    ensures Split(v + ([SEMI, SPACE] + t), Mark(name)) == [v] + Split(t[|name| + 1..], Mark(name))
  {
    hide IndexOf, Split;
    var s := v + ([SEMI, SPACE] + t);
    SearchAcross(v, t, name);
    SplitStep(s, Mark(name));
    SliceLater(v, [SEMI, SPACE] + t, 0, |name| + 3);
    assert ([SEMI, SPACE] + t)[|name| + 3..] == t[|name| + 1..];
    assert v + [] == v;
  }

  lemma OtherMark(v: Bytes, t: Bytes, name: Bytes)
    requires SEMI !in v && !(name + [EQ] <= t)
    ensures var parts := Split(t, Mark(name));
            Split(v + ([SEMI, SPACE] + t), Mark(name)) == [v + [SEMI, SPACE] + parts[0]] + parts[1..]
  {
    hide IndexOf, Split;
    SearchAcross(v, t, name);
    assert v + ([SEMI, SPACE] + t) == v + [SEMI, SPACE] + t;
    SplitLater(v + [SEMI, SPACE], t, Mark(name));
  }

  lemma NameInFront(p: Pair, rest: Bytes, name: Bytes)
    requires CookieName(p.name) && CookieValue(p.value) && CookieName(name)
    ensures name + [EQ] <= PairText(p) + rest <==> p.name == name
    ensures p.name == name ==> (PairText(p) + rest)[|name| + 1..] == p.value + rest
    ensures SEMI !in PairText(p)
  {
    assert Octets([]) && CookieValue([]);
    hide CookieName, CookieValue;
    PlainPair(p);
    PlainPair(Pair(name, []));
    var t := PairText(p) + rest;
    assert t == p.name + [EQ] + (p.value + rest);
    assert p.name + [EQ] <= t;
    if name + [EQ] <= t {
      OneFirstEq(t, name, p.name);
    }
  }

  /** The parts are as many as the pairs of that name, and one; the first begins
      with the text in front, the second with the first value. */
  lemma {:induction false} SplitAtName(v: Bytes, pairs: seq<Pair>, name: Bytes)
    requires SEMI !in v && WellFormed(pairs) && CookieName(name)
    ensures var parts := Split(v + Marked(pairs), Mark(name));
            && |parts| == 1 + Count(pairs, name) && Starts(parts[0], v)
            && (Count(pairs, name) > 0 ==> Starts(parts[1], FirstValue(pairs, name)))
    decreases |pairs|
  {
    hide Split, IndexOf, CookieName, CookieValue, PairText;
    if |pairs| == 0 {
      NoMark(v, name);
      assert v + [] == v;
    } else {
      var p, rest := pairs[0], pairs[1..];
      var t := PairText(p) + Marked(rest);
      NameInFront(p, Marked(rest), name);
      PlainPair(p);
      if p.name == name {
        MarkInFront(v, t, name);
        SplitAtName(p.value, rest, name);
      } else {
        OtherMark(v, t, name);
        SplitAtName(PairText(p), rest, name);
      }
    }
  }

  lemma NoMark(v: Bytes, name: Bytes)
    requires SEMI !in v
    ensures Split(v, Mark(name)) == [v]
  {
    hide IndexOf;
    IndexOfSkips(v, [], Mark(name));
    NothingInEmpty(Mark(name));
    assert v + [] == v;
  }

  lemma {:induction false} FirstIsPlain(pairs: seq<Pair>, name: Bytes)
    requires WellFormed(pairs)
    ensures SEMI !in FirstValue(pairs, name)
  {
    hide CookieName, CookieValue;
    if |pairs| > 0 {
      PlainPair(pairs[0]);
      FirstIsPlain(pairs[1..], name);
    }
  }

  /** On every well-formed cookie string the page finds a name exactly when one pair
      has it: with none, and with two or more, it finds nothing. */
  lemma GcFindsUnique(pairs: seq<Pair>, name: Bytes)
    requires WellFormed(pairs) && CookieName(name)
    ensures Gc(CookieString(pairs), name) == if Count(pairs, name) == 1 then Some(FirstValue(pairs, name)) else None
  {
    assert name != [];
    hide Split, CookieName, WellFormed, CookieString;
    if |pairs| == 0 {
      NothingToSplit(name);
    } else {
      MarkedIsString(pairs);
      SplitAtName([], pairs, name);
      assert [] + Marked(pairs) == Marked(pairs);
      if Count(pairs, name) == 1 {
        FirstIsPlain(pairs, name);
        UpToSemicolon(Split(Marked(pairs), Mark(name))[1], FirstValue(pairs, name));
      }
    }
  }

  lemma NothingToSplit(name: Bytes)
    requires name != []
    ensures Split([SEMI, SPACE] + CookieString([]), Mark(name)) == [[SEMI, SPACE]] && Count([], name) == 0
  {
    hide IndexOf;
    assert [SEMI, SPACE] + CookieString([]) == [SEMI, SPACE];
  }

  /** The page and the filter read the same of a name exactly when at most one pair
      has it, or all that the filter reads of it is empty. */
  lemma PageAndFilterAgree(pairs: seq<Pair>, name: Bytes)
    requires WellFormed(pairs) && ChallengeName(name)
    ensures var page, filter := Gc(CookieString(pairs), name), Field(Scan(CookieString(pairs), NO_COOKIES), name);
            (if page.Some? then page.value else []) == filter <==> Count(pairs, name) <= 1 || filter == []
  {
    hide Gc, Scan, CookieString, Count, FirstValue, LastValue;
    NamesDiffer();
    GcFindsUnique(pairs, name);
    ScannerTakesLast(pairs, name);
    CountOfFew(pairs, name);
  }

  lemma {:induction false} CountOfFew(pairs: seq<Pair>, name: Bytes)
    ensures Count(pairs, name) == 0 ==> FirstValue(pairs, name) == [] && LastValue(pairs, name) == []
    ensures Count(pairs, name) == 1 ==> FirstValue(pairs, name) == LastValue(pairs, name)
  {
    if |pairs| > 0 {
      var rest := pairs[1..];
      CountOfFew(rest, name);
      LastOfCons(pairs[0], rest, name);
      assert [pairs[0]] + rest == pairs;
    }
  }

  /** The last value in a longer list: that of the rest, when the rest has the name. */
  lemma {:induction false} LastOfCons(p: Pair, rest: seq<Pair>, name: Bytes)
    ensures LastValue([p] + rest, name)
            == if Count(rest, name) > 0 then LastValue(rest, name) else if p.name == name then p.value else []
    decreases |rest|
  {
    if |rest| == 0 {
      assert [p] + rest == [p] && [p][..0] == [];
    } else {
      var front, q := rest[..|rest| - 1], rest[|rest| - 1];
      assert ([p] + rest)[..|rest|] == [p] + front && ([p] + rest)[|rest|] == q;
      LastOfCons(p, front, name);
      assert rest == front + [q];
      CountAppend(front, q, name);
    }
  }

  lemma {:induction false} CountAppend(pairs: seq<Pair>, q: Pair, name: Bytes)
    ensures Count(pairs + [q], name) == Count(pairs, name) + if q.name == name then 1 else 0
  {
    if |pairs| == 0 {
      assert pairs + [q] == [q] && [q][1..] == [];
    } else {
      assert (pairs + [q])[1..] == pairs[1..] + [q];
      CountAppend(pairs[1..], q, name);
    }
  }

  // ---------------------------------------------------------------- writing

  /** `sc`. */
  function Sc(name: Bytes, value: Bytes, maxAge: int): Bytes {
    name + [EQ] + value + Ascii("; Path=/; Max-Age=") + Itoa(maxAge) + Ascii("; SameSite=Lax")
  }

  /** What the page writes is kept for that long, and neither Secure nor HttpOnly. */
  lemma ScIsKept(jar: Jar, p: Pair, maxAge: int)
    requires CookieName(p.name) && CookieValue(p.value) && maxAge > 0
    ensures Receive(jar, Sc(p.name, p.value, maxAge)) == jar[p.name := Kept(p.value, maxAge, false, false)]
  {
    hide Receive, CookieName, CookieValue, Kept, Itoa, Ascii;
    ReceiveSet(jar, p, maxAge, false, false);
    assert Sc(p.name, p.value, maxAge) == SetCookie(p.name, p.value, maxAge, false, false);
  }

  // ------------------------------------------------------------ cookie strings

  /** A cookie string lists a jar's cookies, in any order. */
  predicate Lists(pairs: seq<Pair>, cookies: map<Bytes, Bytes>) {
    && WellFormed(pairs) && DistinctNames(pairs)
    && (forall i :: 0 <= i < |pairs| ==> pairs[i].name in cookies && cookies[pairs[i].name] == pairs[i].value)
    && (forall n :: n in cookies ==> exists i :: 0 <= i < |pairs| && pairs[i].name == n)
  }

  /** What a request carries: Secure cookies over https only. */
  function Sent(jar: Jar, https: bool): map<Bytes, Bytes> { map n | n in jar && (jar[n].secure ==> https) :: jar[n].value }

  lemma {:induction false} CountOfDistinct(pairs: seq<Pair>, i: nat)
    requires DistinctNames(pairs) && i < |pairs|
    ensures Count(pairs, pairs[i].name) == 1 && FirstValue(pairs, pairs[i].name) == pairs[i].value
  {
    var name, rest := pairs[i].name, pairs[1..];
    if i == 0 {
      CountOfNone(rest, name);
    } else {
      assert rest[i - 1] == pairs[i];
      CountOfDistinct(rest, i - 1);
    }
  }

  lemma {:induction false} CountOfNone(pairs: seq<Pair>, name: Bytes)
    requires forall i :: 0 <= i < |pairs| ==> pairs[i].name != name
    ensures Count(pairs, name) == 0
  {
    if |pairs| > 0 {
      CountOfNone(pairs[1..], name);
    }
  }

  /** A listing names every cookie once, with its value, and no other. */
  lemma ListedOnce(pairs: seq<Pair>, cookies: map<Bytes, Bytes>, name: Bytes)
    requires Lists(pairs, cookies)
    ensures Count(pairs, name) == if name in cookies then 1 else 0
    ensures FirstValue(pairs, name) == LastValue(pairs, name) == if name in cookies then cookies[name] else []
  {
    hide WellFormed, Count, FirstValue, LastValue;
    if name in cookies {
      var i :| 0 <= i < |pairs| && pairs[i].name == name;
      CountOfDistinct(pairs, i);
    } else {
      CountOfNone(pairs, name);
    }
    CountOfFew(pairs, name);
  }
}
