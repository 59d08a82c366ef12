// Stable sorting by a strict weak order: what sort.SliceStable gives, and, when no two elements are alike, sort.Slice.
module Sorting {
  /** Irreflexive and transitive, and so is "neither is before the other". */
  ghost predicate StrictWeak<T(!new)>(before: (T, T) -> bool) {
    && (forall x :: !before(x, x))
    && (forall x, y, z :: before(x, y) && before(y, z) ==> before(x, z))
    && (forall x, y, z :: !before(x, y) && !before(y, z) ==> !before(x, z))
  }

  ghost predicate Ordered<T>(s: seq<T>, before: (T, T) -> bool) {
    forall i, j | 0 <= i < j < |s| :: !before(s[j], s[i])
  }

  /** Puts an element behind all that need not come after it. */
  function Insert<T>(s: seq<T>, x: T, before: (T, T) -> bool): seq<T> {
    if s == [] || !before(x, s[|s| - 1]) then s + [x]
    else Insert(s[..|s| - 1], x, before) + [s[|s| - 1]]
  }

  function StableSort<T>(s: seq<T>, before: (T, T) -> bool): seq<T> {
    if s == [] then [] else Insert(StableSort(s[..|s| - 1], before), s[|s| - 1], before)
  }

  lemma {:induction false} InsertKeepsElements<T>(s: seq<T>, x: T, before: (T, T) -> bool)
    ensures multiset(Insert(s, x, before)) == multiset(s) + multiset{x}
  {
    if s != [] && before(x, s[|s| - 1]) {
      InsertKeepsElements(s[..|s| - 1], x, before);
      assert s == s[..|s| - 1] + [s[|s| - 1]];
    }
  }

  lemma {:induction false} InsertKeepsOrder<T(!new)>(s: seq<T>, x: T, before: (T, T) -> bool)
    requires StrictWeak(before) && Ordered(s, before)
    ensures Ordered(Insert(s, x, before), before)
    ensures forall y | y in Insert(s, x, before) :: y == x || y in s
  {
    if s != [] {
      var init, last := s[..|s| - 1], s[|s| - 1];
      assert s == init + [last];
      if before(x, last) {
        InsertKeepsOrder(init, x, before);
        var r := Insert(init, x, before);
        assert forall i | 0 <= i < |r| :: r[i] in r;
        assert forall y | y in init :: !before(last, y);
        assert !before(last, x);
      }
    }
  }

  /** The sorted list is ordered and holds the same elements. */
  lemma {:induction false} StableSortSorts<T(!new)>(s: seq<T>, before: (T, T) -> bool)
    requires StrictWeak(before)
    ensures Ordered(StableSort(s, before), before)
    ensures multiset(StableSort(s, before)) == multiset(s)
    ensures |StableSort(s, before)| == |s|
  {
    if s != [] {
      var init, last := s[..|s| - 1], s[|s| - 1];
      assert s == init + [last];
      StableSortSorts(init, before);
      InsertKeepsOrder(StableSort(init, before), last, before);
      InsertKeepsElements(StableSort(init, before), last, before);
      assert |multiset(StableSort(s, before))| == |StableSort(s, before)| && |multiset(s)| == |s|;
    }
  }

  /** The elements that come neither before nor after x. */
  function AlikeTo<T>(s: seq<T>, x: T, before: (T, T) -> bool): seq<T> {
    if s == [] then []
    else
      var y := s[|s| - 1];
      AlikeTo(s[..|s| - 1], x, before) + if before(x, y) || before(y, x) then [] else [y]
  }

  lemma {:induction false} InsertIsStable<T(!new)>(s: seq<T>, y: T, x: T, before: (T, T) -> bool)
    requires StrictWeak(before)
    ensures AlikeTo(Insert(s, y, before), x, before) == AlikeTo(s + [y], x, before)
  {
    assert (s + [y])[..|s|] == s;
    if s != [] && before(y, s[|s| - 1]) {
      var init, last := s[..|s| - 1], s[|s| - 1];
      InsertIsStable(init, y, x, before);
      assert (init + [y])[..|init|] == init;
      var r := Insert(init, y, before);
      assert (r + [last])[..|r|] == r;
    }
  }

  /** Elements that the order does not tell apart keep their order. */
  lemma {:induction false} StableSortIsStable<T(!new)>(s: seq<T>, x: T, before: (T, T) -> bool)
    requires StrictWeak(before)
    ensures AlikeTo(StableSort(s, before), x, before) == AlikeTo(s, x, before)
  {
    if s != [] {
      var init, last := s[..|s| - 1], s[|s| - 1];
      assert s == init + [last];
      StableSortIsStable(init, x, before);
      InsertIsStable(StableSort(init, before), last, x, before);
      AlikeToSum(StableSort(init, before), last, x, before);
    }
  }

  lemma AlikeToSum<T>(s: seq<T>, y: T, x: T, before: (T, T) -> bool)
    ensures AlikeTo(s + [y], x, before) ==
            AlikeTo(s, x, before) + if before(x, y) || before(y, x) then [] else [y]
  {
    assert (s + [y])[..|s|] == s;
  }
}
