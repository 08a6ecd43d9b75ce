/** Go's `sort` package: `Sort` is what `sort.SliceStable` computes, `SortSlice`
    promises no more than `sort.Slice` does. */
module Sorting {

  type Less<!T> = (T, T) -> bool

  ghost predicate StrictWeak<T(!new)>(less: Less<T>) {
    && (forall a, b :: less(a, b) ==> !less(b, a))
    && (forall a, b, c :: less(a, b) ==> less(a, c) || less(c, b))
  }

  ghost predicate Sorted<T>(s: seq<T>, less: Less<T>) {
    forall i, j :: 0 <= i < j < |s| ==> !less(s[j], s[i])
  }

  function Insert<T>(s: seq<T>, x: T, less: Less<T>): seq<T> {
    if |s| > 0 && less(x, s[|s| - 1]) then Insert(s[..|s| - 1], x, less) + [s[|s| - 1]] else s + [x]
  }

  function Sort<T>(s: seq<T>, less: Less<T>): seq<T> {
    if |s| == 0 then [] else Insert(Sort(s[..|s| - 1], less), s[|s| - 1], less)
  }

  lemma {:induction false} InsertPermutes<T>(s: seq<T>, x: T, less: Less<T>)
    ensures multiset(Insert(s, x, less)) == multiset(s) + multiset{x}
  {
    if |s| > 0 && less(x, s[|s| - 1]) {
      InsertPermutes(s[..|s| - 1], x, less);
      assert s == s[..|s| - 1] + [s[|s| - 1]];
    }
  }

  lemma {:induction false} InsertKeepsSorted<T(!new)>(s: seq<T>, x: T, less: Less<T>)
    requires StrictWeak(less) && Sorted(s, less)
    ensures Sorted(Insert(s, x, less), less)
  {
    if |s| > 0 && less(x, s[|s| - 1]) {
      var front, last := s[..|s| - 1], s[|s| - 1];
      InsertKeepsSorted(front, x, less);
      InsertPermutes(front, x, less);
      var t := Insert(front, x, less);
      forall i | 0 <= i < |t|
        ensures !less(last, t[i])
      {
        assert t[i] in multiset(t);
        if t[i] != x {
          assert t[i] in multiset(front);
        }
      }
    } else if |s| > 0 {
      forall i | 0 <= i < |s|
        ensures !less(x, s[i])
      {
        assert i < |s| - 1 ==> !less(s[|s| - 1], s[i]);
      }
    }
  }

  lemma {:induction false} SortSorts<T(!new)>(s: seq<T>, less: Less<T>)
    requires StrictWeak(less)
    ensures Sorted(Sort(s, less), less) && multiset(Sort(s, less)) == multiset(s)
  {
    if |s| > 0 {
      SortSorts(s[..|s| - 1], less);
      InsertKeepsSorted(Sort(s[..|s| - 1], less), s[|s| - 1], less);
      InsertPermutes(Sort(s[..|s| - 1], less), s[|s| - 1], less);
      assert s == s[..|s| - 1] + [s[|s| - 1]];
    }
  }

  // -------------------------------------------------------------- stability

  predicate Ties<T>(x: T, y: T, less: Less<T>) { !less(x, y) && !less(y, x) }

  /** The elements tied with `x`, in order. */
  function TiedWith<T>(s: seq<T>, x: T, less: Less<T>): seq<T> {
    if |s| == 0 then []
    else TiedWith(s[..|s| - 1], x, less) + if Ties(x, s[|s| - 1], less) then [s[|s| - 1]] else []
  }

  lemma {:induction false} InsertIsStable<T(!new)>(s: seq<T>, y: T, x: T, less: Less<T>)
    requires StrictWeak(less)
    ensures TiedWith(Insert(s, y, less), x, less) == TiedWith(s + [y], x, less)
  {
    if |s| > 0 && less(y, s[|s| - 1]) {
      var front, last := s[..|s| - 1], s[|s| - 1];
      var t := Insert(front, y, less);
      InsertIsStable(front, y, x, less);
      assert (t + [last])[..|t|] == t;
      assert (front + [y])[..|front|] == front && (s + [y])[..|s|] == s;
      assert !(Ties(x, y, less) && Ties(x, last, less));
    }
  }

  /** Tied elements keep their order. */
  lemma {:induction false} SortIsStable<T(!new)>(s: seq<T>, x: T, less: Less<T>)
    requires StrictWeak(less)
    ensures TiedWith(Sort(s, less), x, less) == TiedWith(s, x, less)
  {
    if |s| > 0 {
      var front, last := s[..|s| - 1], s[|s| - 1];
      var t := Sort(front, less);
      SortIsStable(front, x, less);
      InsertIsStable(t, last, x, less);
      assert (t + [last])[..|t|] == t;
    }
  }

  /** Some sorted permutation; nothing is promised of ties. */
  method SortSlice<T(!new)>(s: seq<T>, less: Less<T>) returns (r: seq<T>)
    requires StrictWeak(less)
    ensures Sorted(r, less) && multiset(r) == multiset(s)
  {
    SortSorts(s, less);
    r := Sort(s, less);
  }
}
