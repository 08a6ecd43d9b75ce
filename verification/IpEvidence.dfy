/** Which reports a lookup keeps (db.go): the first under each `evidenceKey`. The
    key joins its fields with bars, so what names the sources and categories have
    decides whether different reports can share one. */
module IpEvidence {
  import opened GoBytes
  import opened IpScore

  const BAR: byte := '|' as int

  function EvidenceKey(e: Evidence): Bytes {
    e.source + [BAR] + e.category + [BAR] + Itoa(e.confidence) + [BAR] + e.detail
  }

  function Keys(evs: seq<Evidence>): set<Bytes> { set i | 0 <= i < |evs| :: EvidenceKey(evs[i]) }

  /** The first report under each key, in order. */
  function Firsts(evs: seq<Evidence>): seq<Evidence> {
    if |evs| == 0 then []
    else
      var front, e := evs[..|evs| - 1], evs[|evs| - 1];
      Firsts(front) + if EvidenceKey(e) in Keys(front) then [] else [e]
  }

  lemma FirstsMore(evs: seq<Evidence>, e: Evidence)
    ensures Keys(evs + [e]) == Keys(evs) + {EvidenceKey(e)}
    ensures Firsts(evs + [e]) == Firsts(evs) + if EvidenceKey(e) in Keys(evs) then [] else [e]
  {
    hide EvidenceKey;
    var more := evs + [e];
    assert more[..|evs|] == evs && more[|evs|] == e;
    assert forall i :: 0 <= i < |evs| ==> more[i] == evs[i];
    forall k | k in Keys(evs)
      ensures k in Keys(more)
    {
      var i :| 0 <= i < |evs| && EvidenceKey(evs[i]) == k;
      assert more[i] == evs[i];
    }
  }

  ghost predicate KeyIsKept(evs: seq<Evidence>, key: Bytes) { exists e :: e in Firsts(evs) && EvidenceKey(e) == key }

  /** Every report is kept or shares its key with one that is. */
  lemma {:induction false} EveryKeyIsKept(evs: seq<Evidence>, i: nat)
    requires i < |evs|
    ensures KeyIsKept(evs, EvidenceKey(evs[i]))
    decreases |evs|
  {
    hide EvidenceKey;
    var front, last := evs[..|evs| - 1], evs[|evs| - 1];
    if i < |front| {
      EveryKeyIsKept(front, i);
      assert KeyIsKept(front, EvidenceKey(front[i]));
    } else if EvidenceKey(last) in Keys(front) {
      var k :| 0 <= k < |front| && EvidenceKey(front[k]) == EvidenceKey(last);
      EveryKeyIsKept(front, k);
    } else {
      assert last in Firsts(evs);
    }
  }

  /** No two kept reports share a key, and each is one of the reports. */
  lemma {:induction false} KeptAreDistinct(evs: seq<Evidence>)
    ensures forall i, j :: 0 <= i < j < |Firsts(evs)| ==> EvidenceKey(Firsts(evs)[i]) != EvidenceKey(Firsts(evs)[j])
    ensures forall e :: e in Firsts(evs) ==> e in evs
  {
    hide EvidenceKey;
    if |evs| > 0 {
      var front, last := evs[..|evs| - 1], evs[|evs| - 1];
      KeptAreDistinct(front);
      forall e | e in Firsts(front)
        ensures EvidenceKey(e) in Keys(front)
      {
        var i :| 0 <= i < |front| && front[i] == e;
      }
      assert evs == front + [last];
    }
  }

  // ------------------------------------------------------------------ names

  datatype Name = Name(source: Bytes, category: Bytes)

  function NameOf(e: Evidence): Name { Name(e.source, e.category) }

  /** A matched entry; confidences are bytes. */
  predicate IsReport(e: Evidence) { 0 <= e.confidence < 256 && e.matched }

  function Head(n: Name): Bytes { n.source + [BAR] + n.category }

  /** The head `b` goes on, after `a`, with what a report of confidence `n` writes. */
  predicate Covers(a: Bytes, b: Bytes, n: nat) { a + [BAR] + Decimal(n) + [BAR] <= b + [BAR] }

  /** Reports of these names and confidences share a key for some details. */
  predicate Meet(x: Name, y: Name, n: nat, m: nat) {
    (Head(x) == Head(y) && n == m) || Covers(Head(x), Head(y), n) || Covers(Head(y), Head(x), m)
  }

  function KeyFrom(head: Bytes, n: nat, detail: Bytes): Bytes { head + [BAR] + Decimal(n) + [BAR] + detail }

  lemma KeyOfReport(e: Evidence)
    requires e.confidence >= 0
    ensures EvidenceKey(e) == KeyFrom(Head(NameOf(e)), e.confidence, e.detail)
  {
  }

  lemma DecimalHasNoBar(n: nat)
    ensures BAR !in Decimal(n)
  {
    var d := Decimal(n);
    assert forall i :: 0 <= i < |d| ==> IsDigit(d[i]);
  }

  /** Without a bar before it, the text up to the first bar can be read back. */
  lemma CutAtBar(a: Bytes, s: Bytes, b: Bytes, t: Bytes)
    requires BAR !in a && BAR !in b && a + [BAR] + s == b + [BAR] + t
    ensures a == b && s == t
  {
    IndexByteAt(a, BAR, s);
    IndexByteAt(b, BAR, t);
    var x, y := a + [BAR] + s, b + [BAR] + t;
    assert x[..|a|] == a && y[..|b|] == b && x[|a| + 1..] == s && y[|b| + 1..] == t;
  }

  lemma SameHead(head: Bytes, n: nat, d: Bytes, m: nat, e: Bytes)
    requires KeyFrom(head, n, d) == KeyFrom(head, m, e)
    ensures n == m && d == e
  {
    hide Decimal;
    var u, v := Decimal(n) + [BAR] + d, Decimal(m) + [BAR] + e;
    assert KeyFrom(head, n, d) == head + [BAR] + u && KeyFrom(head, m, e) == head + [BAR] + v;
    assert (head + [BAR] + u)[|head| + 1..] == u && (head + [BAR] + v)[|head| + 1..] == v;
    DecimalHasNoBar(n);
    DecimalHasNoBar(m);
    CutAtBar(Decimal(n), d, Decimal(m), e);
    DecimalValue(n);
    DecimalValue(m);
  }

  lemma ShorterHead(a: Bytes, n: nat, d: Bytes, b: Bytes, m: nat, e: Bytes)
    requires KeyFrom(a, n, d) == KeyFrom(b, m, e) && |a| < |b|
    ensures Covers(a, b, n)
  {
    hide Decimal;
    var key, pre, top := KeyFrom(a, n, d), a + [BAR] + Decimal(n) + [BAR], b + [BAR];
    assert pre <= key;
    assert key == top + (Decimal(m) + [BAR] + e);
    assert top <= key;
    DecimalHasNoBar(n);
    assert key[|b|] == BAR;
    assert forall i :: |a| < i <= |a| + |Decimal(n)| ==> key[i] == Decimal(n)[i - |a| - 1];
    assert |pre| <= |top|;
    assert pre == key[..|pre|] && top == key[..|top|];
    assert pre == top[..|pre|];
  }

  lemma CoveredMeet(a: Bytes, n: nat, b: Bytes, m: nat) returns (d: Bytes)
    requires Covers(a, b, n)
    ensures KeyFrom(a, n, d) == KeyFrom(b, m, [])
  {
    hide Decimal;
    var pre, top := a + [BAR] + Decimal(n) + [BAR], b + [BAR];
    d := top[|pre|..] + Decimal(m) + [BAR];
    assert top == pre + top[|pre|..];
    assert KeyFrom(b, m, []) == top + Decimal(m) + [BAR];
  }

  /** Reports share a key exactly when their names and confidences can meet, for
      some details. */
  lemma MeetExactly(x: Name, y: Name, n: nat, m: nat)
    ensures (exists d, e :: KeyFrom(Head(x), n, d) == KeyFrom(Head(y), m, e)) <==> Meet(x, y, n, m)
  {
    hide Decimal, Head, Covers;
    var a, b := Head(x), Head(y);
    if d, e :| KeyFrom(a, n, d) == KeyFrom(b, m, e) {
      if |a| < |b| {
        ShorterHead(a, n, d, b, m, e);
      } else if |b| < |a| {
        ShorterHead(b, m, e, a, n, d);
      } else {
        assert KeyFrom(a, n, d)[..|a|] == a && KeyFrom(b, m, e)[..|b|] == b;
        SameHead(a, n, d, m, e);
      }
    }
    if Meet(x, y, n, m) {
      if Covers(a, b, n) {
        var d := CoveredMeet(a, n, b, m);
        assert KeyFrom(a, n, d) == KeyFrom(b, m, []);
      } else if Covers(b, a, m) {
        var e := CoveredMeet(b, m, a, n);
        assert KeyFrom(a, n, []) == KeyFrom(b, m, e);
      } else {
        assert KeyFrom(a, n, []) == KeyFrom(b, m, []);
      }
    }
  }

  // ------------------------------------------------------- exact conditions

  predicate Says(e: Evidence, n: Name) { IsReport(e) && NameOf(e) == n }

  /** Different names under which some reports share a key. */
  predicate Clash(x: Name, y: Name) {
    x != y && exists n, m :: 0 <= n < 256 && 0 <= m < 256 && Meet(x, y, n, m)
  }

  function ReportOf(x: Name, n: nat, detail: Bytes): Evidence { Evidence(x.source, x.category, n, true, detail) }

  lemma SharedKeyMeets(e: Evidence, f: Evidence)
    requires IsReport(e) && IsReport(f) && EvidenceKey(e) == EvidenceKey(f)
    ensures Meet(NameOf(e), NameOf(f), e.confidence, f.confidence)
    ensures NameOf(e) == NameOf(f) ==> e == f
  {
    hide Head, Meet, EvidenceKey, KeyFrom;
    KeyOfReport(e);
    KeyOfReport(f);
    MeetExactly(NameOf(e), NameOf(f), e.confidence, f.confidence);
    if NameOf(e) == NameOf(f) {
      SameHead(Head(NameOf(e)), e.confidence, e.detail, f.confidence, f.detail);
    }
  }

  lemma MeetingReports(x: Name, y: Name, n: nat, m: nat) returns (e: Evidence, f: Evidence)
    requires n < 256 && m < 256 && Meet(x, y, n, m)
    ensures Says(e, x) && Says(f, y) && e.confidence == n && f.confidence == m && EvidenceKey(e) == EvidenceKey(f)
  {
    hide Head, Meet, EvidenceKey, KeyFrom;
    MeetExactly(x, y, n, m);
    var d, d' :| KeyFrom(Head(x), n, d) == KeyFrom(Head(y), m, d');
    e, f := ReportOf(x, n, d), ReportOf(y, m, d');
    KeyOfReport(e);
    KeyOfReport(f);
  }

  /** Equal keys mean equal reports, for all confidences and details, exactly when
      the names do not clash. */
  lemma KeysAreFaithful(x: Name, y: Name)
    ensures (forall e, f :: Says(e, x) && Says(f, y) && EvidenceKey(e) == EvidenceKey(f) ==> e == f) <==> !Clash(x, y)
  {
    hide Meet, EvidenceKey;
    if Clash(x, y) {
      var n, m :| 0 <= n < 256 && 0 <= m < 256 && Meet(x, y, n, m);
      var e, f := MeetingReports(x, y, n, m);
    } else {
      forall e, f | Says(e, x) && Says(f, y) && EvidenceKey(e) == EvidenceKey(f)
        ensures e == f
      {
        SharedKeyMeets(e, f);
      }
    }
  }

  /** Names without bars never clash. */
  lemma BarlessNamesNeverClash(x: Name, y: Name)
    requires BAR !in x.source && BAR !in x.category && BAR !in y.source && BAR !in y.category
    ensures !Clash(x, y)
  {
    hide Decimal, Meet, KeyFrom;
    forall n: nat, m: nat | Meet(x, y, n, m)
      ensures x == y
    {
      MeetExactly(x, y, n, m);
      var d, e :| KeyFrom(Head(x), n, d) == KeyFrom(Head(y), m, e);
      var u, v := Decimal(n) + [BAR] + d, Decimal(m) + [BAR] + e;
      KeyInParts(x, n, d);
      KeyInParts(y, m, e);
      CutAtBar(x.source, x.category + [BAR] + u, y.source, y.category + [BAR] + v);
      CutAtBar(x.category, u, y.category, v);
    }
  }

  lemma KeyInParts(x: Name, n: nat, d: Bytes)
    ensures KeyFrom(Head(x), n, d) == x.source + [BAR] + (x.category + [BAR] + (Decimal(n) + [BAR] + d))
  {
    hide Decimal;
  }

  function Category(n: Name): Bytes { if n.category == [] then UNKNOWN else n.category }

  function Cap(n: nat): nat { if n > 100 then 100 else n }

  /** A report of `x`, coming first, can hide one of `y` that would have counted. */
  predicate Hides(x: Name, y: Name) {
    && x != y && WeightOf(Category(y)).Some?
    && exists n, m :: 0 <= n < 256 && 0 < m < 256 && Meet(x, y, n, m)
                      && !(Category(x) == Category(y) && Cap(m) <= Cap(n))
  }

  ghost predicate UnderNames(evs: seq<Evidence>, names: set<Name>) {
    forall e :: e in evs ==> IsReport(e) && NameOf(e) in names
  }

  lemma KeptConfidence(evs: seq<Evidence>, names: set<Name>, c: Bytes)
    requires UnderNames(evs, names) && forall x, y :: x in names && y in names ==> !Hides(x, y)
    requires WeightOf(c).Some?
    ensures MaxConf(Firsts(evs), c) == MaxConf(evs, c)
  {
    hide Meet, EvidenceKey, Firsts, WeightOf, Hides;
    KeptAreDistinct(evs);
    MaxConfOfMembers(Firsts(evs), evs, c);
    var m := MaxConf(evs, c);
    if m > 0 {
      var i :| 0 <= i < |evs| && CategoryOf(evs[i]) == c && Clamped(evs[i]) == m;
      var y := evs[i];
      assert y in evs;
      EveryKeyIsKept(evs, i);
      var z :| z in Firsts(evs) && EvidenceKey(z) == EvidenceKey(y);
      assert z in evs;
      hide CategoryOf, Clamped;
      NotHidden(z, y);
      var k :| 0 <= k < |Firsts(evs)| && Firsts(evs)[k] == z;
    }
  }

  /** A report under the key of one that counts counts as much, unless it hides it. */
  lemma NotHidden(z: Evidence, y: Evidence)
    requires IsReport(z) && IsReport(y) && EvidenceKey(z) == EvidenceKey(y) && !Hides(NameOf(z), NameOf(y))
    requires WeightOf(CategoryOf(y)).Some? && Clamped(y) > 0
    ensures CategoryOf(z) == CategoryOf(y) && Clamped(z) >= Clamped(y)
  {
    SharedKeyMeets(z, y);
    hide Meet, EvidenceKey, WeightOf;
  }

  lemma HiddenConfidence(x: Name, y: Name) returns (evs: seq<Evidence>)
    requires Hides(x, y)
    ensures UnderNames(evs, {x, y}) && Confidences(Firsts(evs)) != Confidences(evs)
  {
    hide Meet, EvidenceKey, WeightOf, Confidences, MaxConf, Firsts;
    var n, m :| 0 <= n < 256 && 0 < m < 256 && Meet(x, y, n, m) && !(Category(x) == Category(y) && Cap(m) <= Cap(n));
    var e, f := MeetingReports(x, y, n, m);
    evs := [e] + [f];
    TwoReports(e, f);
    assert CategoryOf(e) == Category(x) && CategoryOf(f) == Category(y) && Clamped(e) == Cap(n) && Clamped(f) == Cap(m);
    hide CategoryOf, Clamped, Category, Cap;
    LostConfidence(e, f);
  }

  lemma LostConfidence(e: Evidence, f: Evidence)
    requires WeightOf(CategoryOf(f)).Some? && Clamped(f) > 0
    requires !(CategoryOf(e) == CategoryOf(f) && Clamped(f) <= Clamped(e))
    ensures Confidences([e]) != Confidences([e] + [f])
  {
    hide WeightOf, Confidences, MaxConf, CategoryOf, Clamped;
    var c := CategoryOf(f);
    ConfidenceAlone(e, c);
    MaxConfAppend([e], f, c);
    ConfidencesMap([e] + [f], c);
    ConfidencesMap([e], c);
  }

  /** The second of two reports under one key is dropped. */
  lemma TwoReports(e: Evidence, f: Evidence)
    requires EvidenceKey(e) == EvidenceKey(f)
    ensures Firsts([e] + [f]) == [e]
  {
    hide EvidenceKey;
    FirstsMore([e], f);
    FirstsMore([], e);
    assert [] + [e] == [e] && [e] + [] == [e];
  }

  /** Dropping reports changes no scored confidence, for every list of reports of
      these names, exactly when none of the names can hide another. */
  lemma DroppingKeepsConfidences(names: set<Name>)
    ensures (forall evs :: UnderNames(evs, names) ==> Confidences(Firsts(evs)) == Confidences(evs))
            <==> forall x, y :: x in names && y in names ==> !Hides(x, y)
  {
    hide Hides, Firsts, Confidences, MaxConf, WeightOf;
    if forall x, y :: x in names && y in names ==> !Hides(x, y) {
      forall evs | UnderNames(evs, names)
        ensures Confidences(Firsts(evs)) == Confidences(evs)
      {
        forall c | WeightOf(c).Some?
          ensures MaxConf(Firsts(evs), c) == MaxConf(evs, c)
        {
          KeptConfidence(evs, names, c);
        }
        SameConfidences(Firsts(evs), evs);
      }
    } else {
      var x, y :| x in names && y in names && Hides(x, y);
      var evs := HiddenConfidence(x, y);
      assert UnderNames(evs, names);
    }
  }

  ghost predicate SourceKept(evs: seq<Evidence>, s: Bytes) { exists e :: e in Firsts(evs) && e.source == s }

  /** Every reporting source keeps a report, for every list of reports of these
      names, exactly when clashing names have one source. */
  lemma DroppingKeepsSources(names: set<Name>)
    ensures (forall evs: seq<Evidence>, i :: UnderNames(evs, names) && 0 <= i < |evs| ==> SourceKept(evs, evs[i].source))
            <==> forall x, y :: x in names && y in names && Clash(x, y) ==> x.source == y.source
  {
    hide Meet, EvidenceKey, Firsts;
    if forall x, y :: x in names && y in names && Clash(x, y) ==> x.source == y.source {
      forall evs: seq<Evidence>, i | UnderNames(evs, names) && 0 <= i < |evs|
        ensures SourceKept(evs, evs[i].source)
      {
        KeptAreDistinct(evs);
        EveryKeyIsKept(evs, i);
        var z :| z in Firsts(evs) && EvidenceKey(z) == EvidenceKey(evs[i]);
        assert evs[i] in evs;
        SharedKeyMeets(z, evs[i]);
        assert NameOf(z) != NameOf(evs[i]) ==> Clash(NameOf(z), NameOf(evs[i]));
      }
    } else {
      var x, y :| x in names && y in names && Clash(x, y) && x.source != y.source;
      var n, m :| 0 <= n < 256 && 0 <= m < 256 && Meet(x, y, n, m);
      var e, f := MeetingReports(x, y, n, m);
      var evs := [e] + [f];
      TwoReports(e, f);
      assert UnderNames(evs, names) && evs[1] == f;
      assert !SourceKept(evs, evs[1].source);
    }
  }

  /** A list that loses its score: the second report, of the heaviest category, has
      the key of the first, whose category is unknown. */
  lemma BarsHideTor(detail: Bytes)
    ensures var x := Evidence(Ascii("a"), Ascii("b|tor"), 100, true, detail);
            var y := Evidence(Ascii("a|b"), Ascii("tor"), 100, true, detail);
            && x != y && EvidenceKey(x) == EvidenceKey(y) && Firsts([x] + [y]) == [x]
            && Score(Confidences([x])) == 0 && Score(Confidences([x] + [y])) == 100
  {
    var x := Evidence(Ascii("a"), Ascii("b|tor"), 100, true, detail);
    var y := Evidence(Ascii("a|b"), Ascii("tor"), 100, true, detail);
    assert Ascii("b|tor") == [98, BAR] + Ascii("tor") && Ascii("a|b") == Ascii("a") + [BAR, 98];
    assert EvidenceKey(x) == EvidenceKey(y) by {
      hide Decimal;
      assert x.source + [BAR] + x.category == y.source + [BAR] + y.category;
    }
    TwoReports(x, y);
    UnknownAlone(x);
    TorAtFull([x] + [y], 1);
    assert |x.source| != |y.source|;
  }

  lemma UnknownAlone(x: Evidence)
    requires x.category == Ascii("b|tor")
    ensures Score(Confidences([x])) == 0
  {
    NoSuchCategory(x.category);
    hide WeightOf, Score;
    assert CategoryOf(x) == x.category;
    assert Confidences([x]) == map[] by {
      forall c
        ensures c !in Confidences([x])
      {
        ConfidencesMap([x], c);
        assert [x] == [] + [x];
        MaxConfAppend([], x, c);
      }
    }
    ProductOfNone(RANKS);
    assert Score(map[]) == 0 by {
      EmptyScore();
    }
  }

  lemma NoSuchCategory(c: Bytes)
    requires |c| == 5 && c[0] == 98
    ensures WeightOf(c).None?
  {
    assert c[0] != Ascii("proxy")[0] && c[0] != Ascii("relay")[0];
  }

  lemma EmptyScore()
    ensures Score(map[]) == 0
  {
    hide Product;
    ProductOfNone(RANKS);
  }

  lemma TorAtFull(evs: seq<Evidence>, i: nat)
    requires i < |evs| && evs[i].category == Ascii("tor") && evs[i].confidence >= 100
    ensures Score(Confidences(evs)) == 100
  {
    var c := Ascii("tor");
    assert Weight(c) == 100;
    hide Weight, WeightOf, Score, Product, Order, Rank;
    assert CategoryOf(evs[i]) == c && Clamped(evs[i]) == 100;
    assert MaxConf(evs, c) == 100;
    WeightOfTor();
    ConfidencesMap(evs, c);
    ConfidencesAreConfident(evs);
    var m := Confidences(evs);
    WeightedIsRanked(c);
    ProductBounds(m, RANKS);
    assert Factor(c, 100) == 0.0;
    ScoreIsPercent(m);
    assert Product(m, RANKS) == 0.0;
  }

  lemma WeightOfTor()
    ensures WeightOf(Ascii("tor")) == Some(100)
  {
  }
}
