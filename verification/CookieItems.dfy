/** Both cookie readers on headers that may hold items without a value. A pair is
    what section 4.2.1 of RFC 6265 calls a cookie-pair; browsers also send a bare
    name. The two readers take such items differently. */
module CookieItems {
  import opened GoBytes
  import opened Cookies

  datatype Item = Full(pair: Pair) | Bare(text: Bytes)

  predicate WellFormedItem(i: Item) {
    match i
    case Full(p) => CookieName(p.name) && CookieValue(p.value)
    case Bare(t) => EQ !in t && SEMI !in t
  }

  predicate WellFormedItems(items: seq<Item>) { forall i :: 0 <= i < |items| ==> WellFormedItem(items[i]) }

  function ItemText(i: Item): Bytes { if i.Full? then PairText(i.pair) else i.text }

  function ItemString(items: seq<Item>): Bytes {
    if |items| == 0 then []
    else if |items| == 1 then ItemText(items[0])
    else ItemText(items[0]) + ([SEMI, SPACE] + ItemString(items[1..]))
  }

  function Pairs(items: seq<Item>): seq<Pair> {
    if |items| == 0 then []
    else (if items[0].Full? then [items[0].pair] else []) + Pairs(items[1..])
  }

  predicate Blank(t: Bytes) { forall i :: 0 <= i < |t| ==> t[i] == SPACE }

  /** The pairs that do not follow a bare item; `held` when one has just been
      read. Items of spaces alone are skipped by both loops. */
  function Recovered(items: seq<Item>, held: bool): seq<Pair> {
    if |items| == 0 then []
    else
      match items[0]
      case Full(p) => (if held then [] else [p]) + Recovered(items[1..], false)
      case Bare(t) => Recovered(items[1..], held || !Blank(t))
  }

  // ------------------------------------------------- parseChallengeCookies

  lemma {:induction false} TrimLeftKeeps(s: Bytes, c: byte)
    requires c in s && !IsSpace(c)
    ensures c in TrimLeft(s)
  {
    if IsSpace(s[0]) {
      assert s == [s[0]] + s[1..];
      TrimLeftKeeps(s[1..], c);
    }
  }

  lemma {:induction false} TrimRightKeeps(s: Bytes, c: byte)
    requires c in s && !IsSpace(c)
    ensures c in TrimRight(s)
  {
    var n := |s| - 1;
    if IsSpace(s[n]) {
      assert s == s[..n] + [s[n]];
      TrimRightKeeps(s[..n], c);
    }
  }

  /** A name with a semicolon in it is none of the four. */
  lemma StoreForeign(out: ChallengeCookies, name: Bytes, val: Bytes)
    requires SEMI in name
    ensures Store(out, name, val) == out
  {
    NamesDiffer();
    PlainPair(Pair(CLEARANCE, []));
    PlainPair(Pair(CHALLENGE, []));
    PlainPair(Pair(SIGNATURE, []));
    PlainPair(Pair(NONCE, []));
  }

  /** Text before a name, with a semicolon in it, that the scanner takes for part
      of the name. */
  predicate Holds(pre: Bytes) { |pre| > 0 && pre[0] != SPACE && pre[0] != SEMI && EQ !in pre && SEMI in pre }

  lemma ScanHeld(pre: Bytes, p: Pair, rest: Bytes, out: ChallengeCookies)
    requires Holds(pre) && CookieName(p.name) && CookieValue(p.value)
    ensures Scan(pre + PairText(p), out) == out
    ensures Scan(pre + (PairText(p) + ([SEMI, SPACE] + rest)), out) == Scan([SPACE] + rest, out)
  {
    hide Scan, CookieName, CookieValue, IndexByte;
    PlainPair(p);
    var tail := p.value + [SEMI] + ([SPACE] + rest);
    ScanHeldName(pre, p.name, p.value, out);
    ScanHeldName(pre, p.name, tail, out);
    assert pre + PairText(p) == pre + p.name + [EQ] + p.value;
    assert pre + (PairText(p) + ([SEMI, SPACE] + rest)) == pre + p.name + [EQ] + tail;
    IndexByteAt(p.value, SEMI, [SPACE] + rest);
    assert tail[|p.value| + 1..] == [SPACE] + rest;
    assert IndexByte(p.value, SEMI) < 0;
  }

  lemma ScanHeldName(pre: Bytes, name: Bytes, v: Bytes, out: ChallengeCookies)
    requires Holds(pre) && EQ !in name
    ensures Scan(pre + name + [EQ] + v, out)
            == var semi := IndexByte(v, SEMI);
               if semi < 0 then out else Scan(v[semi + 1..], out)
  {
    hide IndexByte, Store, TrimSpace, TrimLeft, TrimRight;
    var s, long := pre + name + [EQ] + v, pre + name;
    assert s[0] == pre[0];
    assert SkipSeparators(s) == s;
    IndexByteAt(long, EQ, v);
    assert s[..|long|] == long && s[|long| + 1..] == v;
    TrimKeeps(long, SEMI);
    var semi := IndexByte(v, SEMI);
    StoreForeign(out, TrimSpace(long), TrimSpace(v));
    if semi >= 0 {
      StoreForeign(out, TrimSpace(long), TrimSpace(v[..semi]));
    }
  }

  lemma TrimKeeps(s: Bytes, c: byte)
    requires c in s && !IsSpace(c)
    ensures c in TrimSpace(s)
  {
    TrimLeftKeeps(s, c);
    TrimRightKeeps(TrimLeft(s), c);
  }

  lemma ScanWithoutEq(s: Bytes, out: ChallengeCookies)
    requires EQ !in s
    ensures Scan(s, out) == out
  {
    hide Store, TrimSpace;
    var t := SkipSeparators(s);
    assert forall i :: 0 <= i < |t| ==> t[i] in s;
  }

  /** The scanner inside a name that began with a bare item. */
  lemma {:induction false} ScanInHeld(pre: Bytes, items: seq<Item>, out: ChallengeCookies)
    requires Holds(pre) && WellFormedItems(items)
    ensures Scan(pre + ItemString(items), out) == StoreAll(Recovered(items, true), out)
    decreases |items|, 0
  {
    hide Scan, StoreAll, Store, CookieName, CookieValue;
    if |items| == 0 {
      assert pre + [] == pre;
      ScanWithoutEq(pre, out);
      NothingStored(out);
    } else {
      var rest := ItemString(items[1..]);
      assert WellFormedItem(items[0]) && WellFormedItems(items[1..]);
      match items[0]
      case Full(p) =>
        ScanHeld(pre, p, rest, out);
        ScanSkipsSpace(rest, out);
        assert Recovered(items, true) == Recovered(items[1..], false);
        if |items| > 1 {
          ScanItems(items[1..], out);
        } else {
          NothingStored(out);
        }
      case Bare(t) =>
        if |items| == 1 {
          ScanWithoutEq(pre + t, out);
          NothingStored(out);
        } else {
          var longer := pre + t + [SEMI, SPACE];
          assert pre + (t + ([SEMI, SPACE] + rest)) == longer + rest;
          ScanInHeld(longer, items[1..], out);
        }
    }
  }

  lemma NothingStored(out: ChallengeCookies)
    ensures StoreAll([], out) == out
  {
  }

  lemma {:induction false} ScanSkipsBlank(t: Bytes, s: Bytes, out: ChallengeCookies)
    requires Blank(t)
    ensures Scan(t + s, out) == Scan(s, out)
  {
    hide Scan;
    if |t| == 0 {
      assert t + s == s;
    } else {
      assert t + s == [SPACE] + (t[1..] + s);
      ScanSkipsSpace(t[1..] + s, out);
      ScanSkipsBlank(t[1..], s, out);
    }
  }

  lemma ScanSkipsSemi(s: Bytes, out: ChallengeCookies)
    ensures Scan([SEMI] + s, out) == Scan(s, out)
  {
    hide IndexByte, Store, TrimSpace;
    assert ([SEMI] + s)[1..] == s;
  }

  /** Spaces before a bare item are skipped; from its first other byte it is held. */
  lemma {:induction false} SplitBare(t: Bytes) returns (n: nat)
    requires !Blank(t)
    ensures n < |t| && Blank(t[..n]) && t[n] != SPACE
  {
    if t[0] != SPACE {
      n := 0;
    } else {
      assert forall i :: 1 <= i < |t| ==> t[i] == t[1..][i - 1];
      var k := SplitBare(t[1..]);
      n := k + 1;
      assert forall i :: 1 <= i < n ==> t[i] == t[1..][..k][i - 1];
    }
  }

  /** The scanner recovers exactly the pairs that do not follow a bare item. */
  lemma {:induction false} ScanItems(items: seq<Item>, out: ChallengeCookies)
    requires WellFormedItems(items)
    ensures Scan(ItemString(items), out) == StoreAll(Recovered(items, false), out)
    decreases |items|, 2
  {
    hide Scan, Store, CookieName, CookieValue, Blank;
    if |items| == 0 {
      ScanEmpty(out);
    } else {
      var rest := ItemString(items[1..]);
      assert WellFormedItem(items[0]) && WellFormedItems(items[1..]);
      match items[0]
      case Full(p) =>
        var next := Store(out, p.name, p.value);
        ScanPair(p, rest, out);
        ScanSkipsSpace(rest, next);
        ScanItems(items[1..], next);
        assert ([p] + Recovered(items[1..], false))[1..] == Recovered(items[1..], false);
        assert |items| == 1 ==> Recovered(items[1..], false) == [];
      case Bare(t) =>
        if |items| == 1 {
          ScanWithoutEq(t, out);
        } else {
          ScanBareItem(t, items[1..], out);
          if Blank(t) {
            ScanItems(items[1..], out);
          }
        }
    }
  }

  lemma ScanBareItem(t: Bytes, items: seq<Item>, out: ChallengeCookies)
    requires EQ !in t && SEMI !in t && WellFormedItems(items)
    ensures Scan(t + ([SEMI, SPACE] + ItemString(items)), out)
            == if Blank(t) then Scan(ItemString(items), out) else StoreAll(Recovered(items, true), out)
    decreases |items|, 1
  {
    hide Scan, StoreAll, Recovered, ItemString, WellFormedItems;
    var rest := ItemString(items);
    if Blank(t) {
      ScanSkipsBlank(t, [SEMI, SPACE] + rest, out);
      assert [SEMI, SPACE] + rest == [SEMI] + ([SPACE] + rest);
      ScanSkipsSemi([SPACE] + rest, out);
      ScanSkipsSpace(rest, out);
    } else {
      var n := SplitBare(t);
      var pre := t[n..] + [SEMI, SPACE];
      assert t + ([SEMI, SPACE] + rest) == t[..n] + (pre + rest);
      ScanSkipsBlank(t[..n], pre + rest, out);
      assert t[n] in t && pre[|t| - n] == SEMI;
      assert Holds(pre);
      ScanInHeld(pre, items, out);
    }
  }

  lemma ScannerRecovers(items: seq<Item>, name: Bytes)
    requires WellFormedItems(items) && ChallengeName(name)
    ensures Field(Scan(ItemString(items), NO_COOKIES), name) == LastValue(Recovered(items, false), name)
  {
    hide Scan, ItemString;
    ScanItems(items, NO_COOKIES);
    StoredIsLast(Recovered(items, false), name);
  }

  // ------------------------------------------------------------- getCookie

  lemma {:induction false} IndexOfSkips(a: Bytes, s: Bytes, sub: Bytes)
    requires |sub| > 0 && sub[0] !in a
    ensures IndexOf(a + s, sub) == if IndexOf(s, sub) < 0 then -1 else |a| + IndexOf(s, sub)
  {
    if |a| == 0 {
      assert a + s == s;
    } else {
      assert (a + s)[1..] == a[1..] + s && (a + s)[0] == a[0];
      IndexOfSkips(a[1..], s, sub);
    }
  }

  /** The text before the first `=` is determined. */
  lemma OneFirstEq(t: Bytes, a: Bytes, b: Bytes)
    requires EQ !in a && EQ !in b && a + [EQ] <= t && b + [EQ] <= t
    ensures a == b
  {
    var x, y := a + [EQ], b + [EQ];
    assert x[|a|] == EQ && y[|b|] == EQ;
    assert forall i :: 0 <= i < |a| ==> x[i] == a[i];
    assert forall i :: 0 <= i < |b| ==> y[i] == b[i];
    assert forall i :: 0 <= i < |x| ==> x[i] == t[i];
    assert forall i :: 0 <= i < |y| ==> y[i] == t[i];
  }

  lemma ValueAtPair(value: Bytes, rest: Bytes)
    requires SpaceFree(value) && SEMI !in value
    ensures ValueAt(value) == value
    ensures ValueAt(value + ([SEMI, SPACE] + rest)) == value
  {
    hide IndexByte, TrimSpace;
    TrimPlain(value);
    var s := value + ([SEMI, SPACE] + rest);
    assert s == value + [SEMI] + ([SPACE] + rest);
    IndexByteAt(value, SEMI, [SPACE] + rest);
    assert s[..|value|] == value;
  }

  lemma FirstByteDiffers(sub: Bytes, s: Bytes)
    requires |sub| > 0 && |s| > 0 && sub[0] != s[0]
    ensures !(sub <= s)
  {
  }

  lemma TwoBytes(t: Bytes)
    ensures [SEMI, SPACE] + t == [SEMI] + ([SPACE] + t)
  {
  }

  /** The search at a separator. */
  lemma SearchAtSeparator(t: Bytes, q: Bytes, sub: Bytes)
    requires sub == [SEMI, SPACE] + q
    ensures IndexOf([SEMI, SPACE] + t, sub) == if q <= t then 0 else if IndexOf(t, sub) < 0 then -1 else IndexOf(t, sub) + 2
  {
    hide IndexOf;
    var v := [SPACE] + t;
    SamePrefix([SEMI, SPACE], q, t);
    TwoBytes(t);
    IndexOfStep(SEMI, v, sub);
    FirstByteDiffers(sub, v);
    IndexOfStep(SPACE, t, sub);
  }

  /** The search for `; name=` across one separator. */
  lemma SearchAcross(text: Bytes, t: Bytes, name: Bytes)
    requires SEMI !in text
    ensures var sub := [SEMI, SPACE] + (name + [EQ]);
            var r := IndexOf(t, sub);
            IndexOf(text + ([SEMI, SPACE] + t), sub)
            == if name + [EQ] <= t then |text| else if r < 0 then -1 else |text| + 2 + r
  {
    hide IndexOf;
    var sub := [SEMI, SPACE] + (name + [EQ]);
    IndexOfSkips(text, [SEMI, SPACE] + t, sub);
    SearchAtSeparator(t, name + [EQ], sub);
  }

  lemma SamePrefix(a: Bytes, q: Bytes, t: Bytes)
    ensures a + q <= a + t <==> q <= t
  {
    assert (a + t)[|a|..] == t && (a + q)[|a|..] == q;
    if a + q <= a + t {
      assert forall i :: 0 <= i < |q| ==> q[i] == (a + q)[|a| + i] == (a + t)[|a| + i];
    }
    if q <= t {
      assert a + t == (a + q) + t[|q|..];
    }
  }

  lemma IndexOfStep(c: byte, s: Bytes, sub: Bytes)
    ensures IndexOf([c] + s, sub)
            == if sub <= [c] + s then 0 else if IndexOf(s, sub) < 0 then -1 else IndexOf(s, sub) + 1
  {
    assert ([c] + s)[1..] == s;
  }

  lemma NothingInEmpty(sub: Bytes)
    requires |sub| > 0
    ensures IndexOf([], sub) == -1
  {
  }

  lemma {:induction false} FirstIsLast(pairs: seq<Pair>, name: Bytes)
    requires DistinctNames(pairs)
    ensures FirstValue(pairs, name) == LastValue(pairs, name)
  {
    if |pairs| > 1 {
      var front, p := pairs[..|pairs| - 1], pairs[|pairs| - 1];
      FirstIsLast(front, name);
      assert pairs == front + [p];
      if p.name == name {
        NotAmong(front, name);
      } else {
        FirstOfAppend(front, p, name);
      }
    }
  }

  lemma {:induction false} NotAmong(pairs: seq<Pair>, name: Bytes)
    requires forall i :: 0 <= i < |pairs| ==> pairs[i].name != name
    ensures FirstValue(pairs, name) == [] && LastValue(pairs, name) == []
    ensures forall p: Pair :: FirstValue(pairs + [p], name) == if p.name == name then p.value else []
  {
    if |pairs| > 0 {
      NotAmong(pairs[1..], name);
      NotAmong(pairs[..|pairs| - 1], name);
    }
    forall p: Pair
      ensures FirstValue(pairs + [p], name) == if p.name == name then p.value else []
    {
      if |pairs| > 0 {
        assert (pairs + [p])[1..] == pairs[1..] + [p];
      } else {
        assert (pairs + [p])[1..] == [];
      }
    }
  }

  lemma {:induction false} FirstOfAppend(pairs: seq<Pair>, p: Pair, name: Bytes)
    requires p.name != name
    ensures FirstValue(pairs + [p], name) == FirstValue(pairs, name)
  {
    if |pairs| == 0 {
      assert (pairs + [p])[1..] == [];
    } else {
      assert (pairs + [p])[1..] == pairs[1..] + [p];
      FirstOfAppend(pairs[1..], p, name);
    }
  }

  /** Text of the items after the first, with its separator. */
  function More(items: seq<Item>): Bytes
    requires |items| > 0
  {
    if |items| == 1 then [] else [SEMI, SPACE] + ItemString(items[1..])
  }

  lemma StringIsFirstItem(items: seq<Item>)
    requires |items| > 0
    ensures ItemString(items) == ItemText(items[0]) + More(items)
  {
    assert ItemText(items[0]) + [] == ItemText(items[0]);
  }

  lemma NoSemiInItem(i: Item)
    requires WellFormedItem(i)
    ensures SEMI !in ItemText(i)
  {
    if i.Full? {
      PlainPair(i.pair);
    }
  }

  /** A header starts with `name=` exactly when its first item is a pair of that name. */
  lemma PrefixIsName(items: seq<Item>, name: Bytes)
    requires WellFormedItems(items) && CookieName(name) && |items| > 0
    ensures name + [EQ] <= ItemString(items) <==> items[0].Full? && items[0].pair.name == name
  {
    hide CookieName, CookieValue, ItemString, More;
    assert WellFormedItem(items[0]);
    StringIsFirstItem(items);
    PlainName(name);
    if items[0].Full? {
      PlainPair(items[0].pair);
      PairPrefix(items[0].pair, More(items), name);
    } else {
      MoreIsSeparated(items);
      NoPrefixInBare(items[0].text, More(items), name);
    }
  }

  lemma MoreIsSeparated(items: seq<Item>)
    requires |items| > 0
    ensures |More(items)| > 0 ==> More(items)[0] == SEMI
  {
  }

  lemma PairPrefix(p: Pair, rest: Bytes, name: Bytes)
    requires EQ !in p.name && EQ !in name
    ensures name + [EQ] <= PairText(p) + rest <==> p.name == name
  {
    var t := PairText(p) + rest;
    assert t == p.name + [EQ] + (p.value + rest);
    assert p.name + [EQ] <= t;
    if name + [EQ] <= t {
      OneFirstEq(t, p.name, name);
    }
  }

  lemma NoPrefixInBare(text: Bytes, more: Bytes, name: Bytes)
    requires EQ !in text && SEMI !in text && EQ !in name && SEMI !in name
    requires |more| > 0 ==> more[0] == SEMI
    ensures !(name + [EQ] <= text + more)
  {
    var t, q := text + more, name + [EQ];
    assert |q| > |name| && q[|name|] == EQ;
    assert |name| < |text| ==> t[|name|] == text[|name|];
    assert |more| > 0 ==> t[|text|] == more[0];
    assert |text| < |name| ==> q[|text|] == name[|text|];
  }

  lemma PlainName(name: Bytes)
    requires CookieName(name)
    ensures EQ !in name && SEMI !in name && name[0] != SPACE && |name| > 0
  {
    EmptyValue();
    PlainPair(Pair(name, []));
    assert TokenChar(name[0]);
  }

  /** At a matching first pair the value is read off. */
  lemma ReadFirst(items: seq<Item>, name: Bytes)
    requires WellFormedItems(items) && |items| > 0 && items[0].Full? && items[0].pair.name == name
    ensures |name| + 1 <= |ItemString(items)|
    ensures ValueAt(ItemString(items)[|name| + 1..]) == items[0].pair.value
  {
    hide ValueAt, CookieName, CookieValue, ItemString;
    assert WellFormedItem(items[0]);
    StringIsFirstItem(items);
    var p := items[0].pair;
    PlainPair(p);
    var s := ItemString(items);
    assert s[|name| + 1..] == p.value + More(items);
    assert p.value + [] == p.value;
    ValueAtPair(p.value, if |items| == 1 then [] else ItemString(items[1..]));
  }

  /** The search for `; name=` finds the first later pair of that name. */
  lemma {:induction false} SearchLater(items: seq<Item>, name: Bytes)
    requires WellFormedItems(items) && CookieName(name) && |items| > 0
    ensures var s, sub := ItemString(items), [SEMI, SPACE] + (name + [EQ]);
            var r := IndexOf(s, sub);
            if r >= 0 then ValueAt(s[r + |sub|..]) == FirstValue(Pairs(items[1..]), name)
            else FirstValue(Pairs(items[1..]), name) == []
  {
    hide ValueAt, IndexOf, CookieName, CookieValue, ItemText, FirstValue, ItemString;
    var s, sub, text := ItemString(items), [SEMI, SPACE] + (name + [EQ]), ItemText(items[0]);
    assert WellFormedItem(items[0]);
    StringIsFirstItem(items);
    NoSemiInItem(items[0]);
    NothingFirst(name);
    if |items| == 1 {
      IndexOfSkips(text, [], sub);
      NothingInEmpty(sub);
      assert text + [] == text;
    } else {
      var later := items[1..];
      var t := ItemString(later);
      SearchAcross(text, t, name);
      PrefixIsName(later, name);
      FirstOfItems(later, name);
      if later[0].Full? && later[0].pair.name == name {
        ReadFirst(later, name);
        assert s[|text| + |sub|..] == t[|name| + 1..];
      } else {
        SearchLater(later, name);
        var r := IndexOf(t, sub);
        if r >= 0 {
          assert s[|text| + 2 + r + |sub|..] == t[r + |sub|..];
        }
      }
    }
  }

  lemma NothingFirst(name: Bytes)
    ensures FirstValue(Pairs([]), name) == []
  {
  }

  lemma FirstOfItems(items: seq<Item>, name: Bytes)
    requires |items| > 0
    ensures FirstValue(Pairs(items), name)
            == if items[0].Full? && items[0].pair.name == name then items[0].pair.value else FirstValue(Pairs(items[1..]), name)
  {
    if items[0].Full? {
      assert Pairs(items)[1..] == Pairs(items[1..]);
    } else {
      assert Pairs(items) == Pairs(items[1..]);
    }
  }

  /** After a semicolon comes a space, so `;name=` is never found. */
  lemma {:induction false} NoTightSearch(items: seq<Item>, name: Bytes)
    requires WellFormedItems(items) && CookieName(name)
    ensures IndexOf(ItemString(items), [SEMI] + (name + [EQ])) == -1
  {
    hide IndexOf, CookieName, CookieValue, ItemText;
    var sub := [SEMI] + (name + [EQ]);
    PlainName(name);
    if |items| == 0 {
      NothingInEmpty(sub);
    } else {
      assert WellFormedItem(items[0]);
      StringIsFirstItem(items);
      NoSemiInItem(items[0]);
      IndexOfSkips(ItemText(items[0]), More(items), sub);
      if |items| == 1 {
        NothingInEmpty(sub);
      } else {
        var t := ItemString(items[1..]);
        NoTightSearch(items[1..], name);
        assert [SEMI, SPACE] + t == [SEMI] + ([SPACE] + t);
        IndexOfStep(SEMI, [SPACE] + t, sub);
        IndexOfStep(SPACE, t, sub);
        assert sub[1] == name[0] && ([SEMI] + ([SPACE] + t))[1] == SPACE;
      }
    }
  }

  /** `getCookie` returns the first value of the name, whatever bare items there are. */
  lemma GetCookieFindsFirst(items: seq<Item>, name: Bytes)
    requires WellFormedItems(items) && CookieName(name)
    ensures GetCookie(ItemString(items), name) == FirstValue(Pairs(items), name)
  {
    hide ValueAt, IndexOf, CookieName, CookieValue, ItemString;
    if |items| == 0 {
      assert ItemString(items) == [] by {
        EmptyString();
      }
      NothingFirst(name);
    } else {
      var s := ItemString(items);
      PrefixIsName(items, name);
      FirstOfItems(items, name);
      if items[0].Full? && items[0].pair.name == name {
        ReadFirst(items, name);
      } else {
        SearchLater(items, name);
        NoTightSearch(items, name);
        NothingAnywhere(name);
      }
    }
  }

  lemma EmptyString()
    ensures ItemString([]) == []
  {
  }

  lemma NothingAnywhere(name: Bytes)
    ensures IndexOf([], [SEMI, SPACE] + (name + [EQ])) == -1
  {
  }

  // ------------------------------------------------------------ agreement

  /** The two readers agree on a name exactly when its first pair's value is that
      of its last pair that does not follow a bare item. */
  lemma ReadersAgreeOnItems(items: seq<Item>, name: Bytes)
    requires WellFormedItems(items) && ChallengeName(name)
    ensures Field(Scan(ItemString(items), NO_COOKIES), name) == GetCookie(ItemString(items), name)
            <==> LastValue(Recovered(items, false), name) == FirstValue(Pairs(items), name)
  {
    hide Scan, GetCookie, ItemString, CookieName, Recovered, Pairs;
    NamesDiffer();
    ScannerRecovers(items, name);
    GetCookieFindsFirst(items, name);
  }

  function AsItems(pairs: seq<Pair>): seq<Item> { seq(|pairs|, i requires 0 <= i < |pairs| => Full(pairs[i])) }

  lemma {:induction false} PairsAsItems(pairs: seq<Pair>)
    ensures ItemString(AsItems(pairs)) == CookieString(pairs)
    ensures Pairs(AsItems(pairs)) == pairs && Recovered(AsItems(pairs), false) == pairs
  {
    hide PairText;
    if |pairs| > 0 {
      PairsAsItems(pairs[1..]);
      assert AsItems(pairs)[1..] == AsItems(pairs[1..]);
      assert [pairs[0]] + pairs[1..] == pairs;
    }
  }

  lemma WellFormedAsItems(pairs: seq<Pair>)
    requires WellFormed(pairs)
    ensures WellFormedItems(AsItems(pairs))
  {
    hide CookieName, CookieValue;
  }

  /** On every well-formed cookie string `getCookie` returns the first value. */
  lemma GetCookieTakesFirst(pairs: seq<Pair>, name: Bytes)
    requires WellFormed(pairs) && CookieName(name)
    ensures GetCookie(CookieString(pairs), name) == FirstValue(pairs, name)
  {
    hide GetCookie, CookieName, CookieString, WellFormed;
    PairsAsItems(pairs);
    WellFormedAsItems(pairs);
    GetCookieFindsFirst(AsItems(pairs), name);
  }

  /** On a well-formed cookie string the readers agree on a name exactly when its
      first and last values are the same. */
  lemma ReadersAgree(pairs: seq<Pair>, name: Bytes)
    requires WellFormed(pairs) && ChallengeName(name)
    ensures Field(Scan(CookieString(pairs), NO_COOKIES), name) == GetCookie(CookieString(pairs), name)
            <==> FirstValue(pairs, name) == LastValue(pairs, name)
  {
    hide Scan, GetCookie, CookieString, CookieName, WellFormed;
    PairsAsItems(pairs);
    WellFormedAsItems(pairs);
    ReadersAgreeOnItems(AsItems(pairs), name);
  }

  /** With distinct names they agree on all four challenge cookies. */
  lemma DistinctNamesAgree(pairs: seq<Pair>, name: Bytes)
    requires WellFormed(pairs) && DistinctNames(pairs) && ChallengeName(name)
    ensures Field(Scan(CookieString(pairs), NO_COOKIES), name) == GetCookie(CookieString(pairs), name)
  {
    hide Scan, GetCookie, CookieString, WellFormed;
    ReadersAgree(pairs, name);
    FirstIsLast(pairs, name);
  }

  lemma SingleOctet(b: byte)
    requires CookieOctet(b)
    ensures CookieValue([b])
  {
    assert Octets([b]);
  }

  /** Two cookies of one name: the scanner has the second, `getCookie` the first. */
  lemma DuplicatesDisagree()
    ensures var s := CookieString([Pair(CHALLENGE, Ascii("1")), Pair(CHALLENGE, Ascii("2"))]);
            Scan(s, NO_COOKIES).challenge == Ascii("2") && GetCookie(s, CHALLENGE) == Ascii("1")
  {
    hide Scan, GetCookie, CookieString, CookieName, CookieValue;
    NamesDiffer();
    var one, two := Ascii("1"), Ascii("2");
    assert one == [49] && two == [50];
    SingleOctet(49);
    SingleOctet(50);
    var pairs := [Pair(CHALLENGE, one), Pair(CHALLENGE, two)];
    ScannerTakesLast(pairs, CHALLENGE);
    GetCookieTakesFirst(pairs, CHALLENGE);
  }

  lemma TwoItems(a: Item, b: Item)
    ensures ItemString([a, b]) == ItemText(a) + ([SEMI, SPACE] + ItemText(b))
  {
    assert [a, b][1..] == [b];
  }

  /** `foo; challenge=x`: the scanner finds nothing, `getCookie` finds `x`. */
  lemma BareItemHidesPair()
    ensures var s := Ascii("foo; ") + (CHALLENGE + Ascii("=x"));
            Scan(s, NO_COOKIES) == NO_COOKIES && GetCookie(s, CHALLENGE) == Ascii("x")
  {
    hide Scan, GetCookie, CookieName, CookieValue, StoreAll, ItemString, Recovered, Pairs, Ascii;
    NamesDiffer();
    var foo, x := Ascii("foo"), Ascii("x");
    LettersOf();
    SingleOctet(120);
    assert foo[0] != SPACE;
    var items := [Bare(foo), Full(Pair(CHALLENGE, x))];
    BareThenPair(foo, Pair(CHALLENGE, x));
    ScanItems(items, NO_COOKIES);
    NothingStored(NO_COOKIES);
    GetCookieFindsFirst(items, CHALLENGE);
    TwoItems(items[0], items[1]);
    Regroup(foo, CHALLENGE, x);
  }

  lemma LettersOf()
    ensures Ascii("foo") == [102, 111, 111] && Ascii("x") == [120]
    ensures Ascii("foo; ") == Ascii("foo") + [SEMI, SPACE] && Ascii("=x") == [EQ] + Ascii("x")
  {
  }

  lemma Regroup(a: Bytes, name: Bytes, x: Bytes)
    ensures (a + [SEMI, SPACE]) + (name + ([EQ] + x)) == a + ([SEMI, SPACE] + (name + [EQ] + x))
  {
  }

  lemma BareThenPair(t: Bytes, p: Pair)
    requires !Blank(t)
    ensures Recovered([Bare(t), Full(p)], false) == []
    ensures FirstValue(Pairs([Bare(t), Full(p)]), p.name) == p.value
  {
    assert [Bare(t), Full(p)][1..] == [Full(p)] && [Full(p)][1..] == [];
    assert Recovered([Full(p)], true) == Recovered([], false);
    assert Pairs([Full(p)]) == [p];
  }

  // ------------------------------------------------------ without the space

  /** Pairs joined by a semicolon alone. */
  function TightString(pairs: seq<Pair>): Bytes {
    if |pairs| == 0 then []
    else if |pairs| == 1 then PairText(pairs[0])
    else PairText(pairs[0]) + ([SEMI] + TightString(pairs[1..]))
  }

  lemma ScanTightPair(p: Pair, rest: Bytes, out: ChallengeCookies)
    requires CookieName(p.name) && CookieValue(p.value)
    ensures Scan(PairText(p) + ([SEMI] + rest), out) == Scan(rest, Store(out, p.name, p.value))
  {
    hide IndexByte, Store, TrimSpace, Scan, CookieName, CookieValue, SpaceFree;
    PlainPair(p);
    TrimPlain(p.value);
    var tail := p.value + [SEMI] + rest;
    ScanName(p.name, tail, out);
    assert PairText(p) + ([SEMI] + rest) == p.name + [EQ] + tail;
    IndexByteAt(p.value, SEMI, rest);
    assert tail[..|p.value|] == p.value && tail[|p.value| + 1..] == rest;
  }

  lemma {:induction false} ScanTight(pairs: seq<Pair>, out: ChallengeCookies)
    requires WellFormed(pairs)
    ensures Scan(TightString(pairs), out) == StoreAll(pairs, out)
    decreases |pairs|
  {
    hide Scan, Store;
    if |pairs| == 0 {
      ScanEmpty(out);
    } else {
      var rest, next := TightString(pairs[1..]), Store(out, pairs[0].name, pairs[0].value);
      if |pairs| == 1 {
        ScanPair(pairs[0], [], out);
        assert StoreAll(pairs[1..], next) == next;
      } else {
        ScanTightPair(pairs[0], rest, out);
        ScanTight(pairs[1..], next);
      }
    }
  }

  lemma {:induction false} NotFoundWithout(s: Bytes, sub: Bytes, c: byte)
    requires c in sub && c !in s
    ensures IndexOf(s, sub) == -1
  {
    var i :| 0 <= i < |sub| && sub[i] == c;
    assert i < |s| ==> s[i] in s;
    if |s| > 0 {
      NotFoundWithout(s[1..], sub, c);
    }
  }

  lemma {:induction false} TightHasNoSpace(pairs: seq<Pair>)
    requires WellFormed(pairs)
    ensures SPACE !in TightString(pairs)
  {
    hide CookieName, CookieValue;
    if |pairs| > 0 {
      PlainPair(pairs[0]);
      TightHasNoSpace(pairs[1..]);
    }
  }

  /** The search for `;name=` across one semicolon. */
  lemma SearchTightAcross(text: Bytes, t: Bytes, name: Bytes)
    requires SEMI !in text
    ensures var sub := [SEMI] + (name + [EQ]);
            var r := IndexOf(t, sub);
            IndexOf(text + ([SEMI] + t), sub) == if name + [EQ] <= t then |text| else if r < 0 then -1 else |text| + 1 + r
  {
    hide IndexOf;
    var q := name + [EQ];
    IndexOfSkips(text, [SEMI] + t, [SEMI] + q);
    IndexOfStep(SEMI, t, [SEMI] + q);
    SamePrefix([SEMI], q, t);
  }

  lemma TightStartsWithPair(pairs: seq<Pair>) returns (rest: Bytes)
    requires |pairs| > 0
    ensures TightString(pairs) == PairText(pairs[0]) + rest
    ensures rest == if |pairs| == 1 then [] else [SEMI] + TightString(pairs[1..])
  {
    rest := if |pairs| == 1 then [] else [SEMI] + TightString(pairs[1..]);
    assert PairText(pairs[0]) + [] == PairText(pairs[0]);
  }

  lemma ReadTightFirst(pairs: seq<Pair>)
    requires WellFormed(pairs) && |pairs| > 0
    ensures |pairs[0].name| + 1 <= |TightString(pairs)|
    ensures ValueAt(TightString(pairs)[|pairs[0].name| + 1..]) == pairs[0].value
  {
    hide CookieName, CookieValue, TightString, TrimSpace, IndexByte;
    var p := pairs[0];
    PlainPair(p);
    TrimPlain(p.value);
    var rest := TightStartsWithPair(pairs);
    assert TightString(pairs)[|p.name| + 1..] == p.value + rest;
    if |pairs| == 1 {
      assert p.value + [] == p.value;
    } else {
      var t := TightString(pairs[1..]);
      assert p.value + rest == p.value + [SEMI] + t;
      IndexByteAt(p.value, SEMI, t);
      assert (p.value + [SEMI] + t)[..|p.value|] == p.value;
    }
  }

  lemma TightPrefixIsName(pairs: seq<Pair>, name: Bytes)
    requires WellFormed(pairs) && CookieName(name) && |pairs| > 0
    ensures name + [EQ] <= TightString(pairs) <==> pairs[0].name == name
  {
    hide CookieName, CookieValue, TightString;
    PlainPair(pairs[0]);
    PlainName(name);
    var rest := TightStartsWithPair(pairs);
    PairPrefix(pairs[0], rest, name);
  }

  lemma {:induction false} SearchTight(pairs: seq<Pair>, name: Bytes)
    requires WellFormed(pairs) && CookieName(name) && |pairs| > 0
    ensures var s, sub := TightString(pairs), [SEMI] + (name + [EQ]);
            var r := IndexOf(s, sub);
            if r >= 0 then ValueAt(s[r + |sub|..]) == FirstValue(pairs[1..], name)
            else FirstValue(pairs[1..], name) == []
    decreases |pairs|
  {
    hide ValueAt, IndexOf, CookieName, CookieValue, PairText, TightString;
    var s, sub, text := TightString(pairs), [SEMI] + (name + [EQ]), PairText(pairs[0]);
    NoSemiInItem(Full(pairs[0]));
    var rest := TightStartsWithPair(pairs);
    if |pairs| == 1 {
      IndexOfSkips(text, [], sub);
      NothingInEmpty(sub);
    } else {
      var later := pairs[1..];
      var t := TightString(later);
      SearchTightAcross(text, t, name);
      TightPrefixIsName(later, name);
      if later[0].name == name {
        ReadTightFirst(later);
        assert s[|text| + |sub|..] == t[|name| + 1..];
      } else {
        SearchTight(later, name);
        var r := IndexOf(t, sub);
        if r >= 0 {
          assert s[|text| + 1 + r + |sub|..] == t[r + |sub|..];
        }
      }
    }
  }

  lemma GetCookieTight(pairs: seq<Pair>, name: Bytes)
    requires WellFormed(pairs) && CookieName(name)
    ensures GetCookie(TightString(pairs), name) == FirstValue(pairs, name)
  {
    hide ValueAt, IndexOf, CookieName, CookieValue, TightString;
    var s := TightString(pairs);
    if |pairs| == 0 {
      assert s == [] by {
        EmptyTight();
      }
    } else {
      TightPrefixIsName(pairs, name);
      TightHasNoSpace(pairs);
      assert ([SEMI, SPACE] + (name + [EQ]))[1] == SPACE;
      NotFoundWithout(s, [SEMI, SPACE] + (name + [EQ]), SPACE);
      ReadTightFirst(pairs);
      SearchTight(pairs, name);
    }
  }

  lemma EmptyTight()
    ensures TightString([]) == []
  {
  }

  /** Without the space the readers do as they do with it: the first value of the
      name, and the last. */
  lemma TightStringsAreRead(pairs: seq<Pair>, name: Bytes)
    requires WellFormed(pairs) && ChallengeName(name)
    ensures GetCookie(TightString(pairs), name) == FirstValue(pairs, name)
    ensures Field(Scan(TightString(pairs), NO_COOKIES), name) == LastValue(pairs, name)
  {
    hide GetCookie, CookieName, Scan, StoreAll, TightString;
    NamesDiffer();
    GetCookieTight(pairs, name);
    ScanTight(pairs, NO_COOKIES);
    StoredIsLast(pairs, name);
  }

  /** The four names, as the header spells them. */
  lemma FourNames(clearance: Bytes, challenge: Bytes, signature: Bytes, nonce: Bytes)
    requires CookieValue(clearance) && CookieValue(challenge) && CookieValue(signature) && CookieValue(nonce)
    ensures var header := CookieString([Pair(Ascii("challenge-clearance"), clearance), Pair(Ascii("challenge"), challenge),
                                        Pair(Ascii("challenge-sig"), signature), Pair(Ascii("challenge-nonce"), nonce)]);
            Scan(header, NO_COOKIES) == ChallengeCookies(clearance, challenge, signature, nonce)
  {
    hide Scan, CookieString, CookieName, CookieValue, Ascii;
    NamesDiffer();
    var pairs := [Pair(CLEARANCE, clearance), Pair(CHALLENGE, challenge), Pair(SIGNATURE, signature), Pair(NONCE, nonce)];
    ScanStoresAll(pairs, NO_COOKIES);
    var o1 := NO_COOKIES.(clearance := clearance);
    var o2 := o1.(challenge := challenge);
    var o3 := o2.(signature := signature);
    assert pairs[1..][1..] == pairs[2..] && pairs[2..][1..] == pairs[3..] && pairs[3..][1..] == [];
    assert StoreAll(pairs, NO_COOKIES) == StoreAll(pairs[1..], o1);
    assert StoreAll(pairs[1..], o1) == StoreAll(pairs[2..], o2);
    assert StoreAll(pairs[2..], o2) == StoreAll(pairs[3..], o3);
    assert StoreAll(pairs[3..], o3) == StoreAll([], o3.(nonce := nonce));
  }
}
