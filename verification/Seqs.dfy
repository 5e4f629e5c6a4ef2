/** Sequence operations shared by the models: filtering, distinctness and slicing into batches. */
module Seqs {

  ghost predicate NoRepeats<T>(s: seq<T>) { forall i, j | 0 <= i < j < |s| :: s[i] != s[j] }

  // `[x for x in s if keep(x)]`
  function Filter<T>(s: seq<T>, keep: T -> bool): seq<T> {
    if s == [] then []
    else
      var rest, last := Filter(s[..|s| - 1], keep), s[|s| - 1];
      if keep(last) then rest + [last] else rest
  }

  lemma {:induction false} FilterKeeps<T>(s: seq<T>, keep: T -> bool, x: T)
    ensures x in Filter(s, keep) <==> x in s && keep(x)
  {
    if s != [] {
      FilterKeeps(s[..|s| - 1], keep, x);
      assert s == s[..|s| - 1] + [s[|s| - 1]];
    }
  }

  lemma {:induction false} FilterAll<T>(s: seq<T>, keep: T -> bool)
    requires forall x <- s :: keep(x)
    ensures Filter(s, keep) == s
  {
    if s != [] {
      FilterAll(s[..|s| - 1], keep);
      assert s[|s| - 1] in s && s == s[..|s| - 1] + [s[|s| - 1]];
    }
  }

  // The kept elements split in two by a further test.
  lemma {:induction false} FilterSplits<T(!new)>(s: seq<T>, all: T -> bool, some: T -> bool, rest: T -> bool)
    requires forall x :: all(x) <==> some(x) || rest(x)
    requires forall x :: !(some(x) && rest(x))
    ensures |Filter(s, all)| == |Filter(s, some)| + |Filter(s, rest)|
  {
    if s != [] { FilterSplits(s[..|s| - 1], all, some, rest); }
  }

  lemma {:induction false} FilterShortens<T>(s: seq<T>, keep: T -> bool)
    ensures |Filter(s, keep)| <= |s|
  {
    if s != [] { FilterShortens(s[..|s| - 1], keep); }
  }

  lemma {:induction false} FilterNoRepeats<T>(s: seq<T>, keep: T -> bool)
    requires NoRepeats(s)
    ensures NoRepeats(Filter(s, keep))
  {
    if s != [] {
      var shorter, last := s[..|s| - 1], s[|s| - 1];
      FilterNoRepeats(shorter, keep);
      FilterKeeps(shorter, keep, last);
      assert last !in shorter;
    }
  }

  lemma TakeNext<T>(s: seq<T>, k: nat)
    requires k < |s|
    ensures s[..k + 1] == s[..k] + [s[k]]
  {
  }

  // The next slice of a list: what it adds to the elements seen, none of them seen before when
  // the list has no repeats.
  lemma NextSlice<T>(s: seq<T>, i: nat, j: nat)
    requires i <= j <= |s|
    ensures forall x :: x in s[..j] <==> x in s[..i] || x in s[i..j]
    ensures forall x <- s[i..j] :: x in s && (NoRepeats(s) ==> x !in s[..i])
  {
    assert s[..j] == s[..i] + s[i..j];
  }

  // The non-empty texts of a list, each at its first position.
  function Distinct(texts: seq<string>): seq<string> {
    if texts == [] then [] else AddDistinct(Distinct(texts[..|texts| - 1]), texts[|texts| - 1])
  }

  function AddDistinct(known: seq<string>, text: string): seq<string> {
    if text == "" || text in known then known else known + [text]
  }

  lemma DistinctNext(texts: seq<string>, x: string)
    ensures Distinct(texts + [x]) == AddDistinct(Distinct(texts), x)
  {
    assert (texts + [x])[..|texts|] == texts;
  }

  lemma {:induction false} DistinctIff(texts: seq<string>, x: string)
    ensures x in Distinct(texts) <==> x in texts && x != ""
  {
    if texts != [] {
      DistinctIff(texts[..|texts| - 1], x);
      assert texts == texts[..|texts| - 1] + [texts[|texts| - 1]];
    }
  }

  lemma {:induction false} DistinctHasNoRepeats(texts: seq<string>)
    ensures NoRepeats(Distinct(texts))
  {
    if texts != [] { DistinctHasNoRepeats(texts[..|texts| - 1]); }
  }

  // A list that is already distinct is left as it is.
  lemma {:induction false} DistinctKeepsDistinct(texts: seq<string>)
    requires NoRepeats(texts) && "" !in texts
    ensures Distinct(texts) == texts
  {
    if texts != [] {
      var shorter, last := texts[..|texts| - 1], texts[|texts| - 1];
      DistinctKeepsDistinct(shorter);
      assert last in texts && last !in shorter && texts == shorter + [last];
    }
  }

  // ---------------------------------------------------------------- keys

  ghost predicate DistinctBy<T, K(!new)>(s: seq<T>, key: T -> K) {
    forall i, j | 0 <= i < j < |s| :: key(s[i]) != key(s[j])
  }

  function KeySet<T, K(==)>(s: seq<T>, key: T -> K): set<K> {
    if s == [] then {} else KeySet(s[..|s| - 1], key) + {key(s[|s| - 1])}
  }

  lemma {:induction false} KeySetIff<T, K>(s: seq<T>, key: T -> K, k: K)
    ensures k in KeySet(s, key) <==> exists i | 0 <= i < |s| :: key(s[i]) == k
  {
    if s != [] {
      var init := s[..|s| - 1];
      KeySetIff(init, key, k);
      if i :| 0 <= i < |init| && key(init[i]) == k { assert key(s[i]) == k; }
    }
  }

  lemma KeySetSnoc<T, K>(s: seq<T>, x: T, key: T -> K)
    ensures KeySet(s + [x], key) == KeySet(s, key) + {key(x)}
  {
    assert (s + [x])[..|s|] == s;
  }

  lemma DistinctSnoc<T, K(!new)>(s: seq<T>, x: T, key: T -> K)
    requires DistinctBy(s, key) && key(x) !in KeySet(s, key)
    ensures DistinctBy(s + [x], key)
  {
    forall i | 0 <= i < |s| ensures key(s[i]) != key(x) { KeySetIff(s, key, key(s[i])); }
  }

  // A list without repeated keys has as many keys as elements.
  lemma {:induction false} KeySetSize<T, K(!new)>(s: seq<T>, key: T -> K)
    ensures |KeySet(s, key)| <= |s|
    ensures DistinctBy(s, key) <==> |KeySet(s, key)| == |s|
  {
    if s != [] {
      var init, last := s[..|s| - 1], s[|s| - 1];
      assert s == init + [last];
      KeySetSize(init, key);
      if key(last) in KeySet(init, key) {
        KeySetIff(init, key, key(last));
        var i :| 0 <= i < |init| && key(init[i]) == key(last);
        assert key(s[i]) == key(s[|s| - 1]);
      } else if DistinctBy(init, key) {
        DistinctSnoc(init, last, key);
      } else {
        var i, j :| 0 <= i < j < |init| && key(init[i]) == key(init[j]);
        assert key(s[i]) == key(s[j]);
      }
    }
  }

  // The first element with each key.
  function FirstOfEach<T, K(==)>(s: seq<T>, key: T -> K): seq<T> {
    if s == [] then []
    else
      var rest, last := FirstOfEach(s[..|s| - 1], key), s[|s| - 1];
      if key(last) in KeySet(s[..|s| - 1], key) then rest else rest + [last]
  }

  lemma {:induction false} FirstOfEachKeys<T, K(!new)>(s: seq<T>, key: T -> K)
    ensures KeySet(FirstOfEach(s, key), key) == KeySet(s, key)
    ensures DistinctBy(FirstOfEach(s, key), key)
    ensures |FirstOfEach(s, key)| == |KeySet(s, key)|
  {
    if s != [] {
      var init, last := s[..|s| - 1], s[|s| - 1];
      FirstOfEachKeys(init, key);
      var rest := FirstOfEach(init, key);
      if key(last) in KeySet(init, key) {
        assert KeySet(init, key) + {key(last)} == KeySet(init, key);
      } else {
        assert (rest + [last])[..|rest|] == rest;
      }
    }
    KeySetSize(FirstOfEach(s, key), key);
  }

  ghost predicate IsFirst<T, K(!new)>(s: seq<T>, key: T -> K, i: nat) {
    i < |s| && forall j | 0 <= j < i :: key(s[j]) != key(s[i])
  }

  // Each of them is the earliest of its key.
  lemma {:induction false} FirstOfEachIsFirst<T, K(!new)>(s: seq<T>, key: T -> K, x: T)
    requires x in FirstOfEach(s, key)
    ensures exists i: nat :: IsFirst(s, key, i) && s[i] == x
  {
    var init, last := s[..|s| - 1], s[|s| - 1];
    if x in FirstOfEach(init, key) {
      FirstOfEachIsFirst(init, key, x);
      var i: nat :| IsFirst(init, key, i) && init[i] == x;
      assert IsFirst(s, key, i);
    } else {
      KeySetIff(init, key, key(last));
      forall j | 0 <= j < |s| - 1 ensures key(s[j]) != key(last) { assert init[j] == s[j]; }
      assert IsFirst(s, key, |s| - 1);
    }
  }

  // What holds up to some position and from there on no more is a prefix.
  lemma {:induction false} FilterPrefix<T>(s: seq<T>, keep: T -> bool, n: nat)
    requires n <= |s| && forall i | 0 <= i < |s| :: keep(s[i]) <==> i < n
    ensures Filter(s, keep) == s[..n]
  {
    if s != [] {
      var m := |s| - 1;
      assert s[..m] + [s[m]] == s;
      FilterPrefix(s[..m], keep, if n <= m then n else m);
      if n <= m { assert s[..m][..n] == s[..n]; } else { assert s[..m][..m] == s[..m] && s[..n] == s; }
    }
  }
}
