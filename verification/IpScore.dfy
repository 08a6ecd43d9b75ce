/** Scoring (score.go): a noisy-OR over the greatest confidence of each category.
    The product is taken over exact rationals. */
module IpScore {
  import opened GoBytes
  import opened Sorting

  datatype Evidence = Evidence(source: Bytes, category: Bytes, confidence: int, matched: bool, detail: Bytes)

  datatype CategoryScore = CategoryScore(category: Bytes, confidence: nat, score: nat)

  const UNKNOWN := Ascii("unknown")

  /** `categoryWeights`; None is a name the table does not hold. */
  function WeightOf(c: Bytes): (w: Option<nat>)
    ensures w.Some? ==> w.value <= 100
  {
    if c == Ascii("tor") then Some(100)
    else if c == Ascii("residential_proxy") then Some(95)
    else if c == Ascii("vpn") then Some(80)
    else if c == Ascii("proxy") then Some(70)
    else if c == Ascii("relay") then Some(50)
    else if c == Ascii("hosting") then Some(45)
    else if c == Ascii("enterprise_gateway") then Some(35)
    else if c == Ascii("cdn") then Some(20)
    else if c == Ascii("business") then Some(10)
    else if c == Ascii("mobile") || c == Ascii("education") || c == Ascii("government") then Some(5)
    else if c == Ascii("vpn_candidate") || c == Ascii("residential_isp") || c == UNKNOWN
         || c == Ascii("info") || c == Ascii("country") then Some(0)
    else None
  }

  function Weight(c: Bytes): (w: nat)
    ensures w <= 100
  {
    if WeightOf(c).Some? then WeightOf(c).value else 0
  }

  function Order(): (o: seq<Bytes>)
    ensures |o| == RANKS
  {
    [Ascii("tor"), Ascii("residential_proxy"), Ascii("vpn"), Ascii("vpn_candidate"), Ascii("proxy"),
     Ascii("relay"), Ascii("hosting"), Ascii("enterprise_gateway"), Ascii("cdn"), Ascii("business"),
     Ascii("mobile"), Ascii("education"), Ascii("government"), Ascii("residential_isp"), UNKNOWN]
  }

  const RANKS := 15

  /** `categoryRank`. */
  function RankFrom(c: Bytes, from: nat): (r: nat)
    requires from <= RANKS
    ensures from <= r <= RANKS && (r < RANKS ==> Order()[r] == c)
    ensures (exists i :: from <= i < RANKS && Order()[i] == c) ==> r < RANKS
    decreases RANKS - from
  {
    hide Order;
    if from < RANKS && Order()[from] != c then RankFrom(c, from + 1) else from
  }

  function Rank(c: Bytes): (r: nat) { RankFrom(c, 0) }

  /** The order of the answer's categories. */
  predicate Before(x: CategoryScore, y: CategoryScore) {
    if x.score != y.score then x.score > y.score else Rank(x.category) < Rank(y.category)
  }

  lemma OrderIsDistinct()
    ensures forall i, j :: 0 <= i < j < RANKS ==> Order()[i] != Order()[j]
  {
    var key := [(3, 't'), (17, 'r'), (3, 'v'), (13, 'v'), (5, 'p'), (5, 'r'), (7, 'h'), (18, 'e'), (3, 'c'), (8, 'b'),
                (6, 'm'), (9, 'e'), (10, 'g'), (15, 'r'), (7, 'u')];
    assert forall i :: 0 <= i < RANKS ==> |Order()[i]| == key[i].0 && Order()[i][0] == key[i].1 as int;
    assert forall i, j :: 0 <= i < j < RANKS ==> key[i] != key[j];
  }

  /** Every category with a positive weight has a rank of its own. */
  lemma WeightedIsRanked(c: Bytes)
    requires Weight(c) > 0
    ensures Rank(c) < RANKS && Order()[Rank(c)] == c
  {
    assert c in Order() by {
      hide Ascii;
      if c == Ascii("tor") { assert c == Order()[0]; }
      else if c == Ascii("residential_proxy") { assert c == Order()[1]; }
      else if c == Ascii("vpn") { assert c == Order()[2]; }
      else if c == Ascii("proxy") { assert c == Order()[4]; }
      else if c == Ascii("relay") { assert c == Order()[5]; }
      else if c == Ascii("hosting") { assert c == Order()[6]; }
      else if c == Ascii("enterprise_gateway") { assert c == Order()[7]; }
      else if c == Ascii("cdn") { assert c == Order()[8]; }
      else if c == Ascii("business") { assert c == Order()[9]; }
      else if c == Ascii("mobile") { assert c == Order()[10]; }
      else if c == Ascii("education") { assert c == Order()[11]; }
      else { assert c == Order()[12]; }
    }
  }

  // ------------------------------------------------ greatest confidences

  function CategoryOf(e: Evidence): Bytes { if e.category == [] then UNKNOWN else e.category }

  function Clamped(e: Evidence): (c: nat)
    ensures c <= 100
  {
    if e.confidence < 0 then 0 else if e.confidence > 100 then 100 else e.confidence
  }

  function MaxConf(ev: seq<Evidence>, c: Bytes): (m: nat)
    ensures m <= 100
    ensures forall i :: 0 <= i < |ev| && CategoryOf(ev[i]) == c ==> Clamped(ev[i]) <= m
    ensures m > 0 ==> exists i :: 0 <= i < |ev| && CategoryOf(ev[i]) == c && Clamped(ev[i]) == m
  {
    if |ev| == 0 then 0
    else
      var front, e := ev[..|ev| - 1], ev[|ev| - 1];
      var m := MaxConf(front, c);
      assert forall i :: 0 <= i < |front| ==> front[i] == ev[i];
      if CategoryOf(e) == c && Clamped(e) > m then Clamped(e) else m
  }

  function Named(ev: seq<Evidence>): set<Bytes> { set i | 0 <= i < |ev| :: CategoryOf(ev[i]) }

  /** The greatest positive confidence of each category in the weight table. */
  function Confidences(ev: seq<Evidence>): map<Bytes, nat> {
    map c | c in Named(ev) && WeightOf(c).Some? && MaxConf(ev, c) > 0 :: MaxConf(ev, c)
  }

  lemma ConfidencesMap(ev: seq<Evidence>, c: Bytes)
    ensures c in Confidences(ev) <==> WeightOf(c).Some? && MaxConf(ev, c) > 0
    ensures c in Confidences(ev) ==> Confidences(ev)[c] == MaxConf(ev, c)
  {
  }

  predicate Confident(m: map<Bytes, nat>) { forall c :: c in m ==> 0 < m[c] <= 100 }

  // ------------------------------------------------------------- the score

  function Factor(c: Bytes, conf: nat): real { 1.0 - (Weight(c) * conf) as real / 10000.0 }

  function At(m: map<Bytes, nat>, c: Bytes): nat { if c in m then m[c] else 0 }

  function Times(x: real, y: real): real { x * y }

  /** The product of the first `n` categories' factors, in `Order`. */
  function Product(m: map<Bytes, nat>, n: nat): real
    requires n <= RANKS
  {
    if n == 0 then 1.0 else Times(Product(m, n - 1), Factor(Order()[n - 1], At(m, Order()[n - 1])))
  }

  /** `math.Round` of a number that is not negative. */
  function Round(x: real): int { (x + 0.5).Floor }

  function ToPercent(product: real): int {
    var s := Round(100.0 * (1.0 - product));
    if s < 0 then 0 else if s > 100 then 100 else s
  }

  function Score(m: map<Bytes, nat>): int { ToPercent(Product(m, RANKS)) }

  function CategoryScoreOf(c: Bytes, conf: nat): nat { (Weight(c) * conf + 50) / 100 }

  function Graded(c: Bytes, conf: nat): CategoryScore { CategoryScore(c, conf, CategoryScoreOf(c, conf)) }

  predicate StrictlySorted(cs: seq<CategoryScore>) { forall i, j :: 0 <= i < j < |cs| ==> Before(cs[i], cs[j]) }

  ghost predicate Holds(cs: seq<CategoryScore>, m: map<Bytes, nat>) {
    forall x: CategoryScore :: x in cs <==> x.category in m && Weight(x.category) > 0 && x == Graded(x.category, m[x.category])
  }

  /** The categories of the answer: each scored category once, in order. */
  ghost predicate Ranked(cs: seq<CategoryScore>, m: map<Bytes, nat>) { StrictlySorted(cs) && Holds(cs, m) }

  function Verdict(cs: seq<CategoryScore>): Bytes { if |cs| > 0 then cs[0].category else UNKNOWN }

  /** What `scoreEvidence` makes of a list of evidence. */
  ghost predicate Scored(ev: seq<Evidence>, score: int, verdict: Bytes, categories: seq<CategoryScore>) {
    score == Score(Confidences(ev)) && Ranked(categories, Confidences(ev)) && verdict == Verdict(categories)
  }

  // ---------------------------------------------------------- scoreEvidence

  /** `m` holds the table's categories named so far, with their greatest confidence. */
  ghost predicate Tracks(m: map<Bytes, nat>, ev: seq<Evidence>) {
    forall c :: (c in m <==> WeightOf(c).Some? && MaxConf(ev, c) > 0) && (c in m ==> m[c] == MaxConf(ev, c))
  }

  lemma TracksMore(m: map<Bytes, nat>, ev: seq<Evidence>, e: Evidence)
    requires Tracks(m, ev)
    ensures var c := CategoryOf(e);
            Tracks(if WeightOf(c).Some? && Clamped(e) > At(m, c) then m[c := Clamped(e)] else m, ev + [e])
  {
    hide WeightOf, CategoryOf, MaxConf;
    forall c
      ensures MaxConf(ev + [e], c) == if CategoryOf(e) == c && Clamped(e) > MaxConf(ev, c) then Clamped(e) else MaxConf(ev, c)
    {
      MaxConfAppend(ev, e, c);
    }
  }

  lemma TrackedIsConfidences(m: map<Bytes, nat>, ev: seq<Evidence>)
    requires Tracks(m, ev)
    ensures m == Confidences(ev)
  {
    hide WeightOf, MaxConf, Confidences;
    forall c
      ensures c in Confidences(ev) <==> c in m
      ensures c in m ==> Confidences(ev)[c] == m[c]
    {
      ConfidencesMap(ev, c);
    }
  }

  method MaxConfidences(evidence: seq<Evidence>) returns (maxConf: map<Bytes, nat>)
    ensures maxConf == Confidences(evidence)
  {
    hide WeightOf, Clamped, CategoryOf, Confidences, Tracks;
    maxConf := map[];
    assert Tracks(maxConf, evidence[..0]) by {
      EmptyTracks();
    }
    for i := 0 to |evidence|
      invariant Tracks(maxConf, evidence[..i])
    {
      var e := evidence[i];
      TracksMore(maxConf, evidence[..i], e);
      assert evidence[..i + 1] == evidence[..i] + [e];
      var cat := CategoryOf(e);
      if WeightOf(cat).Some? {
        var c := Clamped(e);
        if c > At(maxConf, cat) {
          maxConf := maxConf[cat := c];
        }
      }
    }
    assert evidence[..|evidence|] == evidence;
    TrackedIsConfidences(maxConf, evidence);
  }

  lemma EmptyTracks()
    ensures Tracks(map[], [])
  {
  }

  /** The loop over the map, in whatever order its keys come. */
  method Combine(maxConf: map<Bytes, nat>) returns (product: real, categories: seq<CategoryScore>)
    requires Confident(maxConf)
    ensures product == Product(maxConf, RANKS)
    ensures Holds(categories, maxConf)
    ensures forall i, j :: 0 <= i < j < |categories| ==> categories[i].category != categories[j].category
  {
    hide Weight, Graded, Product, Factor, Order, Times;
    product, categories := 1.0, [];
    var left := maxConf.Keys;
    ghost var done: map<Bytes, nat> := map[];
    ProductOfNone(RANKS);
    while left != {}
      invariant left <= maxConf.Keys && done.Keys == maxConf.Keys - left
      invariant forall c :: c in done ==> done[c] == maxConf[c]
      invariant product == Product(done, RANKS)
      invariant Holds(categories, done)
      invariant forall i, j :: 0 <= i < j < |categories| ==> categories[i].category != categories[j].category
      decreases |left|
    {
      var cat :| cat in left;
      left := left - {cat};
      var conf := maxConf[cat];
      var weight := Weight(cat);
      AddFactor(done, cat, conf);
      HoldsMore(categories, done, cat, conf);
      forall i | 0 <= i < |categories|
        ensures categories[i].category != cat
      {
        assert categories[i] in categories;
      }
      if weight != 0 && conf != 0 {
        categories := categories + [CategoryScore(cat, conf, RoundedScore(weight, conf))];
        product := Times(product, 1.0 - ((weight * conf) as real / 100.0) / 100.0);
      }
      done := done[cat := conf];
    }
    assert done == maxConf;
  }

  /** `int(math.Round(float64(weight * conf) / 100))`. */
  function RoundedScore(weight: nat, conf: nat): (s: nat)
    ensures s == (weight * conf + 50) / 100
  {
    var x := weight * conf;
    var q := (x + 50) / 100;
    assert 100 * q <= x + 50 < 100 * q + 100;
    assert q as real <= x as real / 100.0 + 0.5 < q as real + 1.0;
    Round((weight * conf) as real / 100.0)
  }

  method ScoreEvidence(evidence: seq<Evidence>) returns (score: int, verdict: Bytes, categories: seq<CategoryScore>)
    ensures Scored(evidence, score, verdict, categories)
  {
    hide Product, Confidences, Holds;
    var maxConf := MaxConfidences(evidence);
    ConfidencesAreConfident(evidence);
    var product, unsorted := Combine(maxConf);
    BeforeIsStrictWeak();
    categories := SortSlice(unsorted, Before);
    SortedIsRanked(unsorted, categories, maxConf);
    if |categories| > 0 {
      verdict := categories[0].category;
    } else {
      verdict := UNKNOWN;
    }
    score := Round(100.0 * (1.0 - product));
    if score < 0 {
      score := 0;
    }
    if score > 100 {
      score := 100;
    }
  }

  lemma ConfidencesAreConfident(ev: seq<Evidence>)
    ensures Confident(Confidences(ev))
  {
    hide WeightOf, Named;
  }

  // ------------------------------------------------- loop over map keys

  lemma {:induction false} ProductOfNone(n: nat)
    requires n <= RANKS
    ensures Product(map[], n) == 1.0
  {
    hide Weight, Order, Factor, Times;
    if n > 0 {
      ProductOfNone(n - 1);
      NoFactor(Order()[n - 1]);
      TimesOne(1.0);
    }
  }

  /** A key adds its factor where its category stands in `Order`. */
  lemma {:induction false} FactorAt(m: map<Bytes, nat>, c: Bytes, conf: nat, n: nat)
    requires n <= RANKS && c !in m
    ensures Product(m[c := conf], n) == if c in Order()[..n] then Times(Product(m, n), Factor(c, conf)) else Product(m, n)
  {
    hide Order, Factor, At, Times;
    if n > 0 {
      OrderIsDistinct();
      FactorAt(m, c, conf, n - 1);
      var d := Order()[n - 1];
      assert Order()[..n] == Order()[..n - 1] + [d];
      if c == d {
        assert c !in Order()[..n - 1];
        NoFactor(c);
        TimesOne(Product(m, n - 1));
        AtUpdated(m, c, conf, c);
      } else {
        AtUpdated(m, c, conf, d);
        Commute(Product(m, n - 1), Factor(c, conf), Factor(d, At(m, d)));
      }
    }
  }

  lemma AtUpdated(m: map<Bytes, nat>, c: Bytes, conf: nat, d: Bytes)
    ensures At(m[c := conf], d) == if d == c then conf else At(m, d)
    ensures c !in m ==> At(m, c) == 0
  {
  }

  lemma TimesOne(x: real)
    ensures Times(x, 1.0) == x
  {
  }

  lemma NoFactor(c: Bytes)
    ensures Factor(c, 0) == 1.0
  {
    hide Weight;
    assert Weight(c) * 0 == 0;
  }

  lemma Commute(x: real, y: real, z: real)
    ensures Times(Times(x, y), z) == Times(Times(x, z), y)
  {
  }

  lemma AddFactor(m: map<Bytes, nat>, c: Bytes, conf: nat)
    requires c !in m
    ensures Product(m[c := conf], RANKS)
            == if Weight(c) != 0 && conf != 0 then Times(Product(m, RANKS), 1.0 - ((Weight(c) * conf) as real / 100.0) / 100.0)
               else Product(m, RANKS)
  {
    hide Weight, Product, Order, Rank, Times;
    FactorAt(m, c, conf, RANKS);
    assert Order()[..RANKS] == Order();
    if Weight(c) > 0 {
      WeightedIsRanked(c);
    }
    if Weight(c) == 0 || conf == 0 {
      assert Weight(c) * conf == 0;
      assert Factor(c, conf) == 1.0;
      TimesOne(Product(m, RANKS));
    }
  }

  lemma HoldsMore(cs: seq<CategoryScore>, m: map<Bytes, nat>, c: Bytes, conf: nat)
    requires Holds(cs, m) && c !in m && conf > 0
    ensures Holds(if Weight(c) != 0 then cs + [Graded(c, conf)] else cs, m[c := conf])
    ensures Graded(c, conf) == CategoryScore(c, conf, (Weight(c) * conf + 50) / 100)
  {
    hide Weight;
  }

  // --------------------------------------------------------------- ordering

  lemma BeforeIsStrictWeak()
    ensures StrictWeak(Before)
  {
    hide Rank;
  }

  /** The comparator never ties two scored categories. */
  lemma BeforeIsTotal(x: CategoryScore, y: CategoryScore)
    requires Weight(x.category) > 0 && Weight(y.category) > 0 && x.category != y.category
    ensures Before(x, y) != Before(y, x)
  {
    WeightedIsRanked(x.category);
    WeightedIsRanked(y.category);
  }

  lemma SortedIsRanked(cs: seq<CategoryScore>, sorted: seq<CategoryScore>, m: map<Bytes, nat>)
    requires Holds(cs, m)
    requires forall i, j :: 0 <= i < j < |cs| ==> cs[i].category != cs[j].category
    requires Sorted(sorted, Before) && multiset(sorted) == multiset(cs)
    ensures Ranked(sorted, m)
  {
    hide Rank, Weight, Before, Graded;
    forall x
      ensures x in cs <==> x in sorted
    {
      assert x in multiset(cs) <==> x in multiset(sorted);
    }
    OncePerCategory(cs);
    forall i, j | 0 <= i < j < |sorted|
      ensures Before(sorted[i], sorted[j])
    {
      var x, y := sorted[i], sorted[j];
      assert x in cs && y in cs;
      if x.category == y.category {
        assert x == y;
        TwiceCounts(sorted, i, j);
        assert false;
      }
      BeforeIsTotal(x, y);
    }
  }

  lemma {:induction false} OncePerCategory(cs: seq<CategoryScore>)
    requires forall i, j :: 0 <= i < j < |cs| ==> cs[i].category != cs[j].category
    ensures forall x :: multiset(cs)[x] <= 1
  {
    if |cs| > 0 {
      var front, last := cs[..|cs| - 1], cs[|cs| - 1];
      OncePerCategory(front);
      assert cs == front + [last];
      assert last !in front;
      assert last !in multiset(front);
    }
  }

  lemma TwiceCounts<T>(s: seq<T>, i: nat, j: nat)
    requires i < j < |s| && s[i] == s[j]
    ensures multiset(s)[s[i]] >= 2
  {
    assert s == s[..j] + [s[j]] + s[j + 1..];
    assert s[i] in s[..j];
    assert s[i] in multiset(s[..j]);
  }

  /** Strictly sorted lists of the same elements are the same list. */
  lemma {:induction false} SortedUnique(a: seq<CategoryScore>, b: seq<CategoryScore>)
    requires StrictlySorted(a) && StrictlySorted(b) && forall x :: x in a <==> x in b
    ensures a == b
  {
    hide Rank;
    assert (|a| == 0 || a[0] in a) && (|b| == 0 || b[0] in b);
    if |a| > 0 {
      assert a[0] in b && b[0] in a;
      assert a[0] == b[0];
      assert a[0] !in a[1..] && a[0] !in b[1..];
      assert a == [a[0]] + a[1..] && b == [b[0]] + b[1..];
      forall x
        ensures x in a[1..] <==> x in b[1..]
      {
        assert x in a[1..] ==> x in a && x != a[0];
        assert x in b[1..] ==> x in b && x != a[0];
      }
      SortedUnique(a[1..], b[1..]);
    }
  }

  // ---------------------------------------------------------- determinism

  /** Evidence in which every category is equally confident is scored alike. */
  ghost predicate SameConfidence(a: seq<Evidence>, b: seq<Evidence>) {
    forall c :: WeightOf(c).Some? ==> MaxConf(a, c) == MaxConf(b, c)
  }

  lemma SameConfidences(a: seq<Evidence>, b: seq<Evidence>)
    requires SameConfidence(a, b)
    ensures Confidences(a) == Confidences(b)
  {
    hide WeightOf, MaxConf;
    forall c
      ensures c in Confidences(a) <==> c in Confidences(b)
      ensures c in Confidences(a) ==> Confidences(a)[c] == Confidences(b)[c]
    {
      ConfidencesMap(a, c);
      ConfidencesMap(b, c);
    }
  }

  lemma RankedUnique(a: seq<CategoryScore>, b: seq<CategoryScore>, m: map<Bytes, nat>)
    requires Ranked(a, m) && Ranked(b, m)
    ensures a == b
  {
    hide Before, Weight, Graded;
    SortedUnique(a, b);
  }

  /** The answer depends on the multiset of the evidence: not on its order, nor
      on the order in which map keys come or ties are sorted. */
  lemma OrderOfEvidence(a: seq<Evidence>, b: seq<Evidence>, ca: seq<CategoryScore>, cb: seq<CategoryScore>)
    requires multiset(a) == multiset(b)
    requires Ranked(ca, Confidences(a)) && Ranked(cb, Confidences(b))
    ensures Score(Confidences(a)) == Score(Confidences(b)) && ca == cb && Verdict(ca) == Verdict(cb)
  {
    hide Confidences, Ranked, Score;
    assert forall e :: (e in multiset(a) <==> e in a) && (e in multiset(b) <==> e in b);
    SameMembers(a, b);
    RankedUnique(ca, cb, Confidences(a));
  }

  lemma MaxConfOfMembers(a: seq<Evidence>, b: seq<Evidence>, c: Bytes)
    requires forall e :: e in a ==> e in b
    ensures MaxConf(a, c) <= MaxConf(b, c)
  {
    hide CategoryOf, Clamped;
    var m := MaxConf(a, c);
    if m > 0 {
      var i :| 0 <= i < |a| && CategoryOf(a[i]) == c && Clamped(a[i]) == m;
      assert a[i] in a;
      var j :| 0 <= j < |b| && b[j] == a[i];
    }
  }

  /** Evidence with the same members, however often and in whatever order. */
  lemma SameMembers(a: seq<Evidence>, b: seq<Evidence>)
    requires forall e :: e in a <==> e in b
    ensures Confidences(a) == Confidences(b)
  {
    hide Confidences, MaxConf, WeightOf;
    forall c
      ensures MaxConf(a, c) == MaxConf(b, c)
    {
      MaxConfOfMembers(a, b, c);
      MaxConfOfMembers(b, a, c);
    }
    SameConfidences(a, b);
  }

  lemma MaxConfAppend(ev: seq<Evidence>, e: Evidence, c: Bytes)
    ensures MaxConf(ev + [e], c) == if CategoryOf(e) == c && Clamped(e) > MaxConf(ev, c) then Clamped(e) else MaxConf(ev, c)
  {
    assert (ev + [e])[..|ev|] == ev;
  }

  /** One more report changes nothing exactly when its category is already
      reported at least as confidently, or has no weight in the table. */
  lemma AbsorbedEvidence(ev: seq<Evidence>, e: Evidence)
    ensures Confidences(ev + [e]) == Confidences(ev)
            <==> WeightOf(CategoryOf(e)).None? || Clamped(e) <= MaxConf(ev, CategoryOf(e))
  {
    hide WeightOf, Clamped, MaxConf, CategoryOf;
    forall c
      ensures MaxConf(ev + [e], c) == if CategoryOf(e) == c && Clamped(e) > MaxConf(ev, c) then Clamped(e) else MaxConf(ev, c)
    {
      MaxConfAppend(ev, e, c);
    }
    var c := CategoryOf(e);
    if WeightOf(c).None? || Clamped(e) <= MaxConf(ev, c) {
      SameConfidences(ev + [e], ev);
    } else {
      ConfidencesMap(ev, c);
      ConfidencesMap(ev + [e], c);
    }
  }

  /** A "no match" entry has no category and no confidence: it is absorbed. */
  lemma NoMatchIsAbsorbed(ev: seq<Evidence>, source: Bytes)
    ensures Confidences(ev + [Evidence(source, [], 0, false, [])]) == Confidences(ev)
  {
    AbsorbedEvidence(ev, Evidence(source, [], 0, false, []));
  }

  // ------------------------------------------------------------ noisy-OR

  /** `m` is nowhere more confident than `n`. */
  predicate Below(m: map<Bytes, nat>, n: map<Bytes, nat>) { forall c :: c in m ==> c in n && m[c] <= n[c] }

  lemma FactorBounds(c: Bytes, conf: nat)
    requires conf <= 100
    ensures 0.0 <= Factor(c, conf) <= 1.0
  {
    hide Weight;
    PartOfWhole(Weight(c), conf);
    FractionBounds(Weight(c) * conf);
  }

  lemma PartOfWhole(w: nat, conf: nat)
    requires w <= 100 && conf <= 100
    ensures 0 <= w * conf <= 10000
  {
    assert w * conf <= 100 * conf;
  }

  lemma FractionBounds(n: nat)
    requires n <= 10000
    ensures 0.0 <= 1.0 - n as real / 10000.0 <= 1.0
  {
  }

  lemma FactorFalls(c: Bytes, x: nat, y: nat)
    requires x <= y
    ensures Factor(c, y) <= Factor(c, x)
  {
    hide Weight;
    LargerPart(Weight(c), x, y);
    LargerFraction(Weight(c) * x, Weight(c) * y);
  }

  lemma LargerPart(w: nat, x: nat, y: nat)
    requires x <= y
    ensures w * x <= w * y
  {
  }

  lemma LargerFraction(m: nat, n: nat)
    requires m <= n
    ensures 1.0 - n as real / 10000.0 <= 1.0 - m as real / 10000.0
  {
  }

  lemma Nonnegative(x: real, y: real)
    requires x >= 0.0 && y >= 0.0
    ensures Times(x, y) >= 0.0
  {
  }

  lemma TimesFraction(p: real, f: real)
    requires 0.0 <= p <= 1.0 && 0.0 <= f <= 1.0
    ensures 0.0 <= Times(p, f) <= 1.0 && Times(p, f) <= p && Times(p, f) <= f
  {
    Nonnegative(p, f);
    Nonnegative(p, 1.0 - f);
    Nonnegative(f, 1.0 - p);
  }

  lemma {:induction false} ProductBounds(m: map<Bytes, nat>, n: nat)
    requires n <= RANKS && Confident(m)
    ensures 0.0 <= Product(m, n) <= 1.0
    ensures forall i :: 0 <= i < n ==> Product(m, n) <= Factor(Order()[i], At(m, Order()[i]))
  {
    hide Factor, Order, Times;
    if n > 0 {
      ProductBounds(m, n - 1);
      var c := Order()[n - 1];
      FactorBounds(c, At(m, c));
      TimesFraction(Product(m, n - 1), Factor(c, At(m, c)));
      assert Product(m, n) <= Product(m, n - 1);
    }
  }

  lemma TimesMonotone(p: real, q: real, f: real, g: real)
    requires 0.0 <= p <= q && 0.0 <= f <= g
    ensures Times(p, f) <= Times(q, g)
  {
    Nonnegative(q - p, f);
    Nonnegative(q, g - f);
  }

  lemma {:induction false} ProductFalls(m: map<Bytes, nat>, m': map<Bytes, nat>, n: nat)
    requires n <= RANKS && Confident(m) && Confident(m') && Below(m, m')
    ensures Product(m', n) <= Product(m, n)
  {
    hide Factor, Order, Times;
    if n > 0 {
      var c := Order()[n - 1];
      ProductFalls(m, m', n - 1);
      ProductBounds(m', n - 1);
      FactorBounds(c, At(m', c));
      FactorFalls(c, At(m, c), At(m', c));
      TimesMonotone(Product(m', n - 1), Product(m, n - 1), Factor(c, At(m', c)), Factor(c, At(m, c)));
    }
  }

  lemma RoundMonotone(x: real, y: real)
    requires x <= y
    ensures Round(x) <= Round(y)
  {
  }

  /** The score is a percentage, and the cut-offs never act. */
  lemma ScoreIsPercent(m: map<Bytes, nat>)
    requires Confident(m)
    ensures 0 <= Score(m) <= 100
    ensures Score(m) == Round(100.0 * (1.0 - Product(m, RANKS)))
  {
    hide Product;
    ProductBounds(m, RANKS);
    RoundMonotone(0.0, 100.0 * (1.0 - Product(m, RANKS)));
    RoundMonotone(100.0 * (1.0 - Product(m, RANKS)), 100.0);
  }

  /** The score is at least every single category's. */
  lemma ScoreCoversCategories(m: map<Bytes, nat>, cs: seq<CategoryScore>, i: nat)
    requires Confident(m) && Ranked(cs, m) && i < |cs|
    ensures Score(m) >= cs[i].score
  {
    hide Product, Weight, Before, Order;
    var x := cs[i];
    assert x in cs;
    var c := x.category;
    WeightedIsRanked(c);
    ProductBounds(m, RANKS);
    var own := Weight(c) * m[c];
    assert Product(m, RANKS) <= Factor(c, m[c]);
    assert own as real / 100.0 <= 100.0 * (1.0 - Product(m, RANKS));
    RoundMonotone(own as real / 100.0, 100.0 * (1.0 - Product(m, RANKS)));
    assert RoundedScore(Weight(c), m[c]) == x.score;
    ScoreIsPercent(m);
  }

  lemma ScoreRises(m: map<Bytes, nat>, m': map<Bytes, nat>)
    requires Confident(m) && Confident(m') && Below(m, m')
    ensures Score(m) <= Score(m')
  {
    hide Product;
    ProductFalls(m, m', RANKS);
    ScoreIsPercent(m);
    ScoreIsPercent(m');
    RoundMonotone(100.0 * (1.0 - Product(m, RANKS)), 100.0 * (1.0 - Product(m', RANKS)));
  }

  /** Every report of `a` is in `b`, at least as confidently. */
  ghost predicate Weaker(a: seq<Evidence>, b: seq<Evidence>) {
    forall i :: 0 <= i < |a| ==>
      exists j :: 0 <= j < |b| && CategoryOf(b[j]) == CategoryOf(a[i]) && a[i].confidence <= b[j].confidence
  }

  lemma WeakerConf(a: seq<Evidence>, b: seq<Evidence>, c: Bytes)
    requires Weaker(a, b)
    ensures MaxConf(a, c) <= MaxConf(b, c)
  {
    hide CategoryOf;
    var m := MaxConf(a, c);
    if m > 0 {
      var i :| 0 <= i < |a| && CategoryOf(a[i]) == c && Clamped(a[i]) == m;
      var j :| 0 <= j < |b| && CategoryOf(b[j]) == CategoryOf(a[i]) && a[i].confidence <= b[j].confidence;
      assert Clamped(b[j]) <= MaxConf(b, c);
    }
  }

  /** More or more confident evidence never lowers the score. */
  lemma MoreEvidence(a: seq<Evidence>, b: seq<Evidence>)
    requires Weaker(a, b)
    ensures Score(Confidences(a)) <= Score(Confidences(b))
  {
    hide WeightOf, Score, MaxConf, Weaker, Confidences;
    forall c | c in Confidences(a)
      ensures c in Confidences(b) && Confidences(a)[c] <= Confidences(b)[c]
    {
      WeakerConf(a, b, c);
      ConfidencesMap(a, c);
      ConfidencesMap(b, c);
    }
    ConfidencesAreConfident(a);
    ConfidencesAreConfident(b);
    ScoreRises(Confidences(a), Confidences(b));
  }

  // ------------------------------------------------------- the weight table

  /** Evidence of this one category at full confidence scores `w`. */
  ghost predicate ScoresAlone(name: string, w: nat) {
    forall e: Evidence, score, verdict, categories ::
      e.category == Ascii(name) && e.confidence >= 100 && Scored([e], score, verdict, categories) ==>
        score == w && verdict == Ascii(name) && categories == [CategoryScore(Ascii(name), 100, w)]
  }

  /** Evidence of this one category never counts. */
  ghost predicate ScoresNothing(name: string) {
    forall e: Evidence, score, verdict, categories ::
      e.category == Ascii(name) && Scored([e], score, verdict, categories) ==>
        score == 0 && verdict == Ascii("unknown") && categories == []
  }

  lemma ConfidenceAlone(e: Evidence, c: Bytes)
    ensures MaxConf([e], c) == if CategoryOf(e) == c then Clamped(e) else 0
  {
    assert [e] == [] + [e];
    MaxConfAppend([], e, c);
  }

  lemma OneConfidence(e: Evidence, c: Bytes)
    requires e.category == c && c != [] && e.confidence >= 100 && WeightOf(c).Some?
    ensures Confidences([e]) == map[c := 100]
  {
    hide WeightOf, Confidences, MaxConf;
    forall k
      ensures k in Confidences([e]) <==> k == c
      ensures k == c ==> Confidences([e])[k] == 100
    {
      ConfidenceAlone(e, k);
      ConfidencesMap([e], k);
    }
  }

  lemma PercentOf(w: nat)
    requires w <= 100
    ensures ToPercent(1.0 - w as real / 100.0) == w
  {
    assert 100.0 * (w as real / 100.0) == w as real;
  }

  lemma WeightIsScore(name: string, w: nat)
    requires Ascii(name) != [] && WeightOf(Ascii(name)) == Some(w) && 0 < w <= 100
    ensures ScoresAlone(name, w)
  {
    var c := Ascii(name);
    hide WeightOf, Confidences, Rank, Ascii, Times;
    forall e: Evidence, score, verdict, categories | e.category == c && e.confidence >= 100 && Scored([e], score, verdict, categories)
      ensures score == w && verdict == c && categories == [CategoryScore(c, 100, w)]
    {
      OneConfidence(e, c);
      var m: map<Bytes, nat> := map[c := 100];
      ScoreOfOne(c, w);
      var x := Graded(c, 100);
      assert x == CategoryScore(c, 100, w);
      assert Ranked([x], m);
      RankedUnique(categories, [x], m);
    }
  }

  lemma ScoreOfOne(c: Bytes, w: nat)
    requires WeightOf(c) == Some(w) && 0 < w <= 100
    ensures Score(map[c := 100]) == w
  {
    hide WeightOf, Product, ToPercent;
    var m: map<Bytes, nat> := map[];
    AddFactor(m, c, 100);
    ProductOfNone(RANKS);
    assert m[c := 100] == map[c := 100];
    OneTimes(1.0 - ((w * 100) as real / 100.0) / 100.0);
    assert (w * 100) as real / 100.0 == w as real;
    PercentOf(w);
  }

  lemma OneTimes(x: real)
    ensures Times(1.0, x) == x
  {
  }

  lemma NothingScored(name: string)
    requires Ascii(name) != [] && (WeightOf(Ascii(name)) == Some(0) || WeightOf(Ascii(name)).None?)
    ensures ScoresNothing(name)
  {
    var c := Ascii(name);
    hide WeightOf, MaxConf, Rank, Ascii;
    forall e: Evidence, score, verdict, categories | e.category == c && Scored([e], score, verdict, categories)
      ensures score == 0 && verdict == UNKNOWN && categories == []
    {
      var m := Confidences([e]);
      forall k | k in m
        ensures k == c
      {
        ConfidenceAlone(e, k);
        ConfidencesMap([e], k);
      }
      NoWeightNoScore(m);
      assert Ranked([], m);
      RankedUnique(categories, [], m);
    }
  }

  /** A map of categories without weight has the empty product. */
  lemma {:induction false} NoWeightNoProduct(m: map<Bytes, nat>, n: nat)
    requires n <= RANKS && forall k :: k in m ==> Weight(k) == 0
    ensures Product(m, n) == 1.0
  {
    hide Weight, Order, Factor, Times;
    if n > 0 {
      NoWeightNoProduct(m, n - 1);
      NoFactorWithout(Order()[n - 1], At(m, Order()[n - 1]));
      TimesOne(1.0);
    }
  }

  lemma NoFactorWithout(c: Bytes, conf: nat)
    requires Weight(c) == 0 || conf == 0
    ensures Factor(c, conf) == 1.0
  {
    hide Weight;
    assert Weight(c) * conf == 0;
  }

  lemma NoWeightNoScore(m: map<Bytes, nat>)
    requires forall k :: k in m ==> Weight(k) == 0
    ensures Score(m) == 0
  {
    hide Product, Weight;
    NoWeightNoProduct(m, RANKS);
  }

  /** The weights, as scores of one category at full confidence. */
  lemma WeightTable()
    ensures ScoresAlone("tor", 100) && ScoresAlone("residential_proxy", 95) && ScoresAlone("vpn", 80)
    ensures ScoresAlone("proxy", 70) && ScoresAlone("relay", 50) && ScoresAlone("hosting", 45)
    ensures ScoresAlone("enterprise_gateway", 35) && ScoresAlone("cdn", 20) && ScoresAlone("business", 10)
    ensures ScoresAlone("mobile", 5) && ScoresAlone("education", 5) && ScoresAlone("government", 5)
    ensures ScoresNothing("vpn_candidate") && ScoresNothing("residential_isp") && ScoresNothing("unknown")
    ensures ScoresNothing("info") && ScoresNothing("country")
  {
    hide ScoresAlone, ScoresNothing, WeightOf;
    WeightsShort();
    WeightsMiddle();
    WeightsLong();
    WeightsOfNothing();
    WeightIsScore("tor", 100);
    WeightIsScore("residential_proxy", 95);
    WeightIsScore("vpn", 80);
    WeightIsScore("proxy", 70);
    WeightIsScore("relay", 50);
    WeightIsScore("hosting", 45);
    WeightIsScore("enterprise_gateway", 35);
    WeightIsScore("cdn", 20);
    WeightIsScore("business", 10);
    WeightIsScore("mobile", 5);
    WeightIsScore("education", 5);
    WeightIsScore("government", 5);
    NothingScored("vpn_candidate");
    NothingScored("residential_isp");
    NothingScored("unknown");
    NothingScored("info");
    NothingScored("country");
  }

  lemma WeightsShort()
    ensures WeightOf(Ascii("tor")) == Some(100) && WeightOf(Ascii("vpn")) == Some(80) && WeightOf(Ascii("cdn")) == Some(20)
    ensures WeightOf(Ascii("proxy")) == Some(70) && WeightOf(Ascii("relay")) == Some(50)
  {
    assert Ascii("vpn")[0] == 118 && Ascii("cdn")[0] == 99 && Ascii("tor")[0] == 116;
    assert Ascii("proxy")[0] == 112 && Ascii("relay")[0] == 114;
  }

  lemma WeightsMiddle()
    ensures WeightOf(Ascii("hosting")) == Some(45) && WeightOf(Ascii("business")) == Some(10) && WeightOf(Ascii("mobile")) == Some(5)
  {
  }

  lemma WeightsLong()
    ensures WeightOf(Ascii("residential_proxy")) == Some(95) && WeightOf(Ascii("enterprise_gateway")) == Some(35)
    ensures WeightOf(Ascii("education")) == Some(5) && WeightOf(Ascii("government")) == Some(5)
  {
  }

  lemma WeightsOfNothing()
    ensures WeightOf(Ascii("vpn_candidate")) == Some(0) && WeightOf(Ascii("residential_isp")) == Some(0)
    ensures WeightOf(Ascii("unknown")) == Some(0) && WeightOf(Ascii("info")) == Some(0) && WeightOf(Ascii("country")) == Some(0)
  {
    LongNothings();
    ShortNothings();
    hide WeightOf, Ascii;
  }

  lemma LongNothings()
    ensures WeightOf(Ascii("vpn_candidate")) == Some(0) && WeightOf(Ascii("residential_isp")) == Some(0)
  {
  }

  lemma ShortNothings()
    ensures WeightOf(Ascii("unknown")) == Some(0) && WeightOf(Ascii("info")) == Some(0) && WeightOf(Ascii("country")) == Some(0)
  {
    assert Ascii("unknown")[0] == 117 && Ascii("hosting")[0] == 104 && Ascii("country")[0] == 99;
  }

  /** Along the order of the answer the positive weights never rise. */
  lemma WeightsFall(i: nat, j: nat)
    requires i < j < RANKS && Weight(Order()[j]) > 0
    ensures Weight(Order()[i]) >= Weight(Order()[j]) || Order()[i] == Ascii("vpn_candidate")
  {
    hide WeightOf;
    WeightsShort();
    WeightsMiddle();
    WeightsLong();
    WeightsOfNothing();
  }

  /** `c` is reported at full confidence. */
  predicate Full(ev: seq<Evidence>, c: Bytes) { MaxConf(ev, c) == 100 }

  /** When every weighted category that is reported is reported at full confidence,
      the verdict is the one that stands first in the order. */
  lemma FullConfidenceVerdict(ev: seq<Evidence>, score: int, verdict: Bytes, categories: seq<CategoryScore>, c: Bytes)
    requires Scored(ev, score, verdict, categories) && Weight(c) > 0 && Full(ev, c)
    requires forall k :: Weight(k) > 0 && MaxConf(ev, k) > 0 ==> Full(ev, k) && Rank(c) <= Rank(k)
    ensures verdict == c
  {
    hide WeightOf, Confidences, MaxConf, Order, Rank;
    var m := Confidences(ev);
    ConfidencesMap(ev, c);
    var x := Graded(c, 100);
    assert x in categories;
    var first := categories[0];
    assert first in categories;
    var k := first.category;
    ConfidencesMap(ev, k);
    var i :| 0 <= i < |categories| && categories[i] == x;
    WeightsNamed(c);
    WeightedIsRanked(c);
    WeightedIsRanked(k);
    if k != c {
      WeightsFall(Rank(c), Rank(k));
      FullScores(c, k);
      assert false;
    }
  }

  lemma WeightsNamed(c: Bytes)
    requires Weight(c) > 0
    ensures c != Ascii("vpn_candidate")
  {
    WeightsOfNothing();
  }

  lemma FullScores(c: Bytes, k: Bytes)
    requires Weight(c) >= Weight(k)
    ensures Graded(c, 100).score == Weight(c) && Graded(k, 100).score == Weight(k)
  {
    hide Weight;
  }

  /** Among equal weights the order decides: mobile, education, government. */
  lemma TiesByOrder()
    ensures Rank(Ascii("mobile")) < Rank(Ascii("education")) < Rank(Ascii("government"))
  {
    hide Weight, WeightOf;
    OrderIsDistinct();
    RankOf(10);
    RankOf(11);
    RankOf(12);
  }

  lemma RankOf(i: nat)
    requires i < RANKS
    ensures Rank(Order()[i]) == i
  {
    OrderIsDistinct();
    assert Order()[Rank(Order()[i])] == Order()[i];
  }

  // --------------------------------------------------- combining categories

  /** Reports of two categories: the chances `p` and `q` that a report means
      nothing multiply. */
  lemma TwoCategories(x: Evidence, y: Evidence, score: int, verdict: Bytes, categories: seq<CategoryScore>, p: real, q: real)
    requires 0 < x.confidence <= 100 && 0 < y.confidence <= 100 && CategoryOf(x) != CategoryOf(y)
    requires Weight(CategoryOf(x)) > 0 && Weight(CategoryOf(y)) > 0
    requires Scored([x, y], score, verdict, categories)
    requires p == 1.0 - (Weight(CategoryOf(x)) * x.confidence) as real / 10000.0
    requires q == 1.0 - (Weight(CategoryOf(y)) * y.confidence) as real / 10000.0
    ensures score == (100.0 * (1.0 - p * q) + 0.5).Floor
  {
    TwoConfidences(x, y);
    hide CategoryOf, Confidences, Product, Ranked, Times, Weight, Score;
    TwoFactors(CategoryOf(x), x.confidence, CategoryOf(y), y.confidence, p, q);
    ScoreOfProduct(Confidences([x, y]), p, q);
  }

  lemma ScoreOfProduct(m: map<Bytes, nat>, p: real, q: real)
    requires Confident(m) && Product(m, RANKS) == p * q
    ensures Score(m) == (100.0 * (1.0 - p * q) + 0.5).Floor
  {
    hide Product, Score;
    ScoreIsPercent(m);
  }

  lemma TwoFactors(c: Bytes, i: nat, d: Bytes, j: nat, p: real, q: real)
    requires c != d && i > 0 && j > 0 && Weight(c) > 0 && Weight(d) > 0
    requires p == 1.0 - (Weight(c) * i) as real / 10000.0 && q == 1.0 - (Weight(d) * j) as real / 10000.0
    ensures Product(map[c := i, d := j], RANKS) == p * q
  {
    hide Weight, Product, Times;
    var none: map<Bytes, nat> := map[];
    AddFactor(none, c, i);
    AddFactor(none[c := i], d, j);
    ProductOfNone(RANKS);
    assert none[c := i][d := j] == map[c := i, d := j];
    Percent(Weight(c) * i);
    Percent(Weight(d) * j);
    OneTimes(p);
    Multiplied(p, q);
  }

  lemma Percent(n: nat)
    ensures (n as real / 100.0) / 100.0 == n as real / 10000.0
  {
  }

  lemma Multiplied(x: real, y: real)
    ensures Times(x, y) == x * y
  {
  }

  lemma TwoConfidences(x: Evidence, y: Evidence)
    requires 0 < x.confidence <= 100 && 0 < y.confidence <= 100 && CategoryOf(x) != CategoryOf(y)
    requires WeightOf(CategoryOf(x)).Some? && WeightOf(CategoryOf(y)).Some?
    ensures Confidences([x, y]) == map[CategoryOf(x) := x.confidence as nat, CategoryOf(y) := y.confidence as nat]
  {
    hide WeightOf, Confidences, MaxConf, CategoryOf;
    assert [x] + [y] == [x, y];
    forall k
      ensures k in Confidences([x, y]) <==> k == CategoryOf(x) || k == CategoryOf(y)
      ensures k == CategoryOf(x) ==> Confidences([x, y])[k] == x.confidence
      ensures k == CategoryOf(y) ==> Confidences([x, y])[k] == y.confidence
    {
      ConfidenceAlone(x, k);
      MaxConfAppend([x], y, k);
      ConfidencesMap([x, y], k);
    }
  }
}
