/** Stable sorting by a comparison, as `sorted(..., reverse=True)` does it, and the order of texts. */
module Sorting {
  import opened Seqs

  // `before(x, y)`: x may stand before y.
  ghost predicate TotalPreorder<T(!new)>(before: (T, T) -> bool) {
    && (forall x, y :: before(x, y) || before(y, x))
    && (forall x, y, z :: before(x, y) && before(y, z) ==> before(x, z))
  }

  // Behind every element that may stand before x.
  function Insert<T>(x: T, s: seq<T>, before: (T, T) -> bool): seq<T> {
    if s == [] || before(s[|s| - 1], x) then s + [x] else Insert(x, s[..|s| - 1], before) + [s[|s| - 1]]
  }

  function Sorted<T>(s: seq<T>, before: (T, T) -> bool): seq<T> {
    if s == [] then [] else Insert(s[|s| - 1], Sorted(s[..|s| - 1], before), before)
  }

  ghost predicate InOrder<T>(s: seq<T>, before: (T, T) -> bool) {
    forall i, j | 0 <= i < j < |s| :: before(s[i], s[j])
  }

  lemma {:induction false} InsertMultiset<T>(x: T, s: seq<T>, before: (T, T) -> bool)
    ensures multiset(Insert(x, s, before)) == multiset(s) + multiset{x}
  {
    if s != [] && !before(s[|s| - 1], x) {
      InsertMultiset(x, s[..|s| - 1], before);
      assert s == s[..|s| - 1] + [s[|s| - 1]];
    }
  }

  lemma {:induction false} SortedIsPermutation<T>(s: seq<T>, before: (T, T) -> bool)
    ensures multiset(Sorted(s, before)) == multiset(s)
    ensures |Sorted(s, before)| == |s|
  {
    if s != [] {
      SortedIsPermutation(s[..|s| - 1], before);
      InsertMultiset(s[|s| - 1], Sorted(s[..|s| - 1], before), before);
      assert s == s[..|s| - 1] + [s[|s| - 1]];
    }
    assert |Sorted(s, before)| == |multiset(Sorted(s, before))|;
  }

  lemma InSorted<T>(s: seq<T>, before: (T, T) -> bool, x: T)
    ensures x in Sorted(s, before) <==> x in s
  {
    SortedIsPermutation(s, before);
    assert x in Sorted(s, before) <==> x in multiset(Sorted(s, before));
    assert x in s <==> x in multiset(s);
  }

  lemma {:induction false} InsertInOrder<T(!new)>(x: T, s: seq<T>, before: (T, T) -> bool)
    requires TotalPreorder(before) && InOrder(s, before)
    ensures InOrder(Insert(x, s, before), before)
  {
    if s == [] { return; }
    var init, last := s[..|s| - 1], s[|s| - 1];
    if before(last, x) {
      AppendInOrder(s, x, before);
    } else {
      InsertInOrder(x, init, before);
      var inserted := Insert(x, init, before);
      forall i | 0 <= i < |inserted| ensures before(inserted[i], last) {
        InsertMultiset(x, init, before);
        assert inserted[i] in multiset(inserted);
        if inserted[i] != x { assert inserted[i] in multiset(init); assert inserted[i] in init; }
      }
    }
  }

  lemma AppendInOrder<T(!new)>(s: seq<T>, x: T, before: (T, T) -> bool)
    requires TotalPreorder(before) && InOrder(s, before) && s != [] && before(s[|s| - 1], x)
    ensures InOrder(s + [x], before)
  {
    forall i | 0 <= i < |s| ensures before(s[i], x) {
      if i < |s| - 1 { assert before(s[i], s[|s| - 1]); }
    }
  }

  lemma {:induction false} SortedInOrder<T(!new)>(s: seq<T>, before: (T, T) -> bool)
    requires TotalPreorder(before)
    ensures InOrder(Sorted(s, before), before)
  {
    if s != [] {
      SortedInOrder(s[..|s| - 1], before);
      InsertInOrder(s[|s| - 1], Sorted(s[..|s| - 1], before), before);
    }
  }

  // Elements that are equal in the order keep their sequence.
  lemma {:induction false} SortedIsStable<T(!new)>(s: seq<T>, before: (T, T) -> bool, same: T -> bool)
    requires forall x, y | same(x) && same(y) :: before(x, y)
    ensures Filter(Sorted(s, before), same) == Filter(s, same)
  {
    if s != [] {
      SortedIsStable(s[..|s| - 1], before, same);
      InsertIsStable(s[|s| - 1], Sorted(s[..|s| - 1], before), before, same);
    }
  }

  lemma FilterSnoc<T>(s: seq<T>, x: T, keep: T -> bool)
    ensures Filter(s + [x], keep) == Filter(s, keep) + (if keep(x) then [x] else [])
  {
    assert (s + [x])[..|s|] == s;
  }

  lemma {:induction false} InsertIsStable<T(!new)>(x: T, s: seq<T>, before: (T, T) -> bool, same: T -> bool)
    requires forall x, y | same(x) && same(y) :: before(x, y)
    ensures Filter(Insert(x, s, before), same) == Filter(s, same) + (if same(x) then [x] else [])
  {
    if s == [] || before(s[|s| - 1], x) {
      FilterSnoc(s, x, same);
    } else {
      var init, last := s[..|s| - 1], s[|s| - 1];
      InsertIsStable(x, init, before, same);
      FilterSnoc(Insert(x, init, before), last, same);
    }
  }

  lemma {:induction false} SortedFilterCount<T>(s: seq<T>, before: (T, T) -> bool, keep: T -> bool)
    ensures |Filter(Sorted(s, before), keep)| == |Filter(s, keep)|
  {
    if s != [] {
      SortedFilterCount(s[..|s| - 1], before, keep);
      InsertFilterCount(s[|s| - 1], Sorted(s[..|s| - 1], before), before, keep);
    }
  }

  lemma {:induction false} InsertFilterCount<T>(x: T, s: seq<T>, before: (T, T) -> bool, keep: T -> bool)
    ensures |Filter(Insert(x, s, before), keep)| == |Filter(s, keep)| + (if keep(x) then 1 else 0)
  {
    if s == [] || before(s[|s| - 1], x) {
      FilterSnoc(s, x, keep);
    } else {
      InsertFilterCount(x, s[..|s| - 1], before, keep);
      FilterSnoc(Insert(x, s[..|s| - 1], before), s[|s| - 1], keep);
    }
  }

  // The first of the sorted elements, and the first of its equals before sorting.
  lemma FirstIsBest<T(!new)>(s: seq<T>, before: (T, T) -> bool)
    requires TotalPreorder(before) && s != []
    ensures |Sorted(s, before)| == |s| && Sorted(s, before)[0] in s
    ensures forall x <- s :: before(Sorted(s, before)[0], x)
  {
    var sorted := Sorted(s, before);
    SortedIsPermutation(s, before);
    SortedInOrder(s, before);
    InSorted(s, before, sorted[0]);
    assert sorted[0] in sorted;
    forall x | x in s ensures before(sorted[0], x) {
      InSorted(s, before, x);
      var i :| 0 <= i < |sorted| && sorted[i] == x;
      if i == 0 { assert before(x, x); }
    }
  }

  // ---------------------------------------------------------------- the order of texts

  // `a >= b`, by code points.
  predicate TextGe(a: string, b: string) {
    b == "" || (a != "" && (a[0] > b[0] || (a[0] == b[0] && TextGe(a[1..], b[1..]))))
  }

  // The same, written out: equal, a longer continuation, or larger at the first difference.
  ghost predicate NotEarlier(a: string, b: string) {
    b <= a || exists k | 0 <= k < |a| && k < |b| :: a[..k] == b[..k] && a[k] > b[k]
  }

  lemma {:induction false} TextGeIff(a: string, b: string)
    ensures TextGe(a, b) <==> NotEarlier(a, b)
  {
    if a != "" && b != "" {
      if a[0] == b[0] {
        TextGeIff(a[1..], b[1..]);
        SameStart(a, b);
      } else if a[0] > b[0] {
        assert a[..0] == b[..0];
      }
    }
  }

  lemma SameStart(a: string, b: string)
    requires a != "" && b != "" && a[0] == b[0]
    ensures b <= a <==> b[1..] <= a[1..]
    ensures (exists k | 0 <= k < |a| && k < |b| :: a[..k] == b[..k] && a[k] > b[k])
       <==> exists k | 0 <= k < |a[1..]| && k < |b[1..]| :: a[1..][..k] == b[1..][..k] && a[1..][k] > b[1..][k]
  {
    assert a == [a[0]] + a[1..] && b == [b[0]] + b[1..];
    if k :| 0 <= k < |a| && k < |b| && a[..k] == b[..k] && a[k] > b[k] {
      assert a[1..][..k - 1] == a[..k][1..] && b[1..][..k - 1] == b[..k][1..];
      assert a[1..][k - 1] > b[1..][k - 1];
    }
    if k :| 0 <= k < |a[1..]| && k < |b[1..]| && a[1..][..k] == b[1..][..k] && a[1..][k] > b[1..][k] {
      assert a[..k + 1] == [a[0]] + a[1..][..k] && b[..k + 1] == [b[0]] + b[1..][..k];
      assert a[k + 1] > b[k + 1];
    }
  }

  lemma {:induction false} TextGeTotal(a: string, b: string)
    ensures TextGe(a, b) || TextGe(b, a)
  {
    if a != "" && b != "" && a[0] == b[0] { TextGeTotal(a[1..], b[1..]); }
  }

  lemma {:induction false} TextGeTransitive(a: string, b: string, c: string)
    requires TextGe(a, b) && TextGe(b, c)
    ensures TextGe(a, c)
  {
    if b != "" && c != "" && a[0] == b[0] && b[0] == c[0] { TextGeTransitive(a[1..], b[1..], c[1..]); }
  }
}
