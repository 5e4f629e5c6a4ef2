/** What one pass of the crystallizer works on (scripts/bhm_crystallize_worker.py:249-355, 500-512): the
    best group of records, its tier, the sample shown to the model and the records to archive. */
module Selection {
  import opened Text
  import opened Seqs
  import opened Payloads
  import opened Sorting
  import opened Harvest

  // ---------------------------------------------------------------- tiers

  datatype Tier = Micro | Macro | Singularity | BigBang

  const MacroMin: nat := 100
  const SingularityMin: nat := 1000
  const BigBangMin: nat := 10000
  const MicroPromptLimit: nat := 20
  const MacroPromptLimit: nat := 30
  const SingularityExamples: nat := 10
  const LeastMinBatch: nat := 10

  datatype Options = Options(project: string, minBatch: nat, maxBatch: nat)

  // The bounds the command line enforces.
  predicate Bounded(o: Options) { LeastMinBatch <= o.minBatch <= o.maxBatch <= MacroPromptLimit }

  // tier_for_count
  function TierForCount(count: nat): Tier {
    if count >= BigBangMin then BigBang
    else if count >= SingularityMin then Singularity
    else if count >= MacroMin then Macro
    else Micro
  }

  // prompt_limit_for_tier
  function PromptLimit(tier: Tier, o: Options): nat {
    match tier
    case BigBang => 0
    case Singularity => SingularityExamples
    case Macro => MacroPromptLimit
    case Micro => Min(o.maxBatch, MicroPromptLimit)
  }

  // archive_records_for_tier
  function ArchiveRecords(tier: Tier, pool: seq<Record>, selected: seq<Record>): seq<Record> {
    if tier == Micro then selected else pool
  }

  // ---------------------------------------------------------------- representatives

  function IdOf(r: Record): string { r.id }

  function SignatureOf(r: Record): string { r.signature }

  // The whole list with each record taken whose id is not among those before it.
  function Filled(selected: seq<Record>, items: seq<Record>): seq<Record> {
    if items == [] then selected
    else
      var filled, last := Filled(selected, items[..|items| - 1]), items[|items| - 1];
      if last.id in KeySet(filled, IdOf) then filled else filled + [last]
  }

  function Cut<T>(s: seq<T>, limit: nat): seq<T> { if |s| <= limit then s else s[..limit] }

  // The sample of a pool: nothing in the largest tier, the top in the smallest, and else first one
  // record per signature and then the others, up to the limit.
  function Representatives(items: seq<Record>, limit: nat, tier: Tier, fingerprint: Record -> string): seq<Record> {
    match tier
    case BigBang => []
    case Micro => Cut(items, limit)
    case Singularity => Cut(Filled(FirstOfEach(items, fingerprint), items), limit)
    case Macro => Cut(Filled(FirstOfEach(items, SignatureOf), items), limit)
  }

  lemma {:induction false} FilledGrows(selected: seq<Record>, items: seq<Record>, k: nat)
    requires k <= |items|
    ensures Filled(selected, items[..k]) <= Filled(selected, items)
    decreases |items|
  {
    if k < |items| {
      var init := items[..|items| - 1];
      FilledGrows(selected, init, k);
      assert init[..k] == items[..k];
    } else {
      assert items[..k] == items;
    }
  }

  // representative_records
  method RepresentativeRecords(items: seq<Record>, limit: nat, tier: Tier, fingerprint: Record -> string)
    returns (selected: seq<Record>)
    ensures selected == Representatives(items, limit, tier, fingerprint)
  {
    if limit == 0 || tier == BigBang {
      assert forall s: seq<Record> :: Cut(s, 0) == [];
      return [];
    }
    if tier == Micro { return Cut(items, limit); }
    var key := if tier == Singularity then fingerprint else SignatureOf;
    selected := TakeFirsts(items, limit, key);
    if |selected| >= limit {
      FilledGrows(FirstOfEach(items, key), items, 0);
      return;
    }
    selected := TakeOthers(items, limit, selected);
  }

  lemma {:induction false} FirstOfEachGrows<T, K>(s: seq<T>, key: T -> K, k: nat)
    requires k <= |s|
    ensures FirstOfEach(s[..k], key) <= FirstOfEach(s, key)
    decreases |s|
  {
    if k < |s| {
      FirstOfEachGrows(s[..|s| - 1], key, k);
      assert s[..|s| - 1][..k] == s[..k];
    } else {
      assert s[..k] == s;
    }
  }

  method TakeFirsts(items: seq<Record>, limit: nat, key: Record -> string) returns (selected: seq<Record>)
    requires limit > 0
    ensures selected == Cut(FirstOfEach(items, key), limit)
  {
    selected := [];
    var seen: set<string> := {};
    for i := 0 to |items|
      invariant selected == FirstOfEach(items[..i], key) && |selected| < limit
      invariant seen == KeySet(items[..i], key)
    {
      assert items[..i + 1][..i] == items[..i];
      FirstOfEachGrows(items, key, i + 1);
      if key(items[i]) in seen {
        assert seen + {key(items[i])} == seen;
        continue;
      }
      selected := selected + [items[i]];
      seen := seen + {key(items[i])};
      if |selected| >= limit { return; }
    }
    assert items[..|items|] == items;
  }

  method TakeOthers(items: seq<Record>, limit: nat, firsts: seq<Record>) returns (selected: seq<Record>)
    requires |firsts| < limit
    ensures selected == Cut(Filled(firsts, items), limit)
  {
    selected := firsts;
    for i := 0 to |items|
      invariant selected == Filled(firsts, items[..i]) && |selected| < limit
    {
      assert items[..i + 1][..i] == items[..i];
      FilledGrows(firsts, items, i + 1);
      if items[i].id in KeySet(selected, IdOf) { continue; }
      selected := selected + [items[i]];
      if |selected| >= limit { return; }
    }
    assert items[..|items|] == items;
  }

  // ---------------------------------------------------------------- what the sample covers

  ghost predicate Within<T>(a: seq<T>, b: seq<T>) { forall x <- a :: x in b }

  lemma WithinAt<T>(a: seq<T>, b: seq<T>, i: nat) returns (j: nat)
    requires Within(a, b) && i < |a|
    ensures j < |b| && b[j] == a[i]
  {
    assert a[i] in a;
    j :| 0 <= j < |b| && b[j] == a[i];
  }

  lemma PrefixWithin<T>(a: seq<T>, b: seq<T>)
    requires a <= b
    ensures Within(a, b)
  {
    forall x | x in a ensures x in b { var i :| 0 <= i < |a| && a[i] == x; assert b[i] == x; }
  }

  lemma WithinAgain<T>(a: seq<T>, b: seq<T>, c: seq<T>)
    requires Within(a, b) && Within(b, c)
    ensures Within(a, c)
  {
  }

  lemma KeySetWithin<T, K(!new)>(a: seq<T>, b: seq<T>, key: T -> K)
    requires Within(a, b)
    ensures KeySet(a, key) <= KeySet(b, key)
  {
    forall k | k in KeySet(a, key) ensures k in KeySet(b, key) {
      KeySetIff(a, key, k);
      KeySetIff(b, key, k);
      var i :| 0 <= i < |a| && key(a[i]) == k;
      var j := WithinAt(a, b, i);
      assert key(b[j]) == k;
    }
  }

  lemma {:induction false} FirstsWithin<T, K>(s: seq<T>, key: T -> K)
    ensures Within(FirstOfEach(s, key), s)
  {
    if s != [] {
      FirstsWithin(s[..|s| - 1], key);
      assert s == s[..|s| - 1] + [s[|s| - 1]];
    }
  }

  // Filling up a list with all items takes each id once.
  lemma {:induction false} FilledIsComplete(selected: seq<Record>, items: seq<Record>)
    requires DistinctBy(selected, IdOf) && Within(selected, items)
    ensures var f := Filled(selected, items);
      DistinctBy(f, IdOf) && selected <= f && KeySet(f, IdOf) == KeySet(items, IdOf) && Within(f, items)
  {
    KeySetWithin(selected, items, IdOf);
    FilledSoFar(selected, items);
    var f := Filled(selected, items);
    forall x | x in f ensures x in items { }
  }

  lemma {:induction false} FilledSoFar(selected: seq<Record>, items: seq<Record>)
    requires DistinctBy(selected, IdOf)
    ensures var f := Filled(selected, items);
      DistinctBy(f, IdOf) && selected <= f && KeySet(f, IdOf) == KeySet(selected, IdOf) + KeySet(items, IdOf)
      && Within(f, selected + items)
  {
    if items != [] {
      var init, last := items[..|items| - 1], items[|items| - 1];
      FilledSoFar(selected, init);
      var before := Filled(selected, init);
      assert selected + items == (selected + init) + [last];
      if last.id !in KeySet(before, IdOf) {
        KeySetSnoc(before, last, IdOf);
        DistinctSnoc(before, last, IdOf);
      }
    }
  }

  lemma FirstsAreDistinct(items: seq<Record>, key: Record -> string)
    requires DistinctBy(items, IdOf)
    ensures DistinctBy(FirstOfEach(items, key), IdOf)
  {
    var firsts := FirstOfEach(items, key);
    FirstOfEachKeys(items, key);
    FirstsWithin(items, key);
    forall i, j | 0 <= i < j < |firsts| ensures IdOf(firsts[i]) != IdOf(firsts[j]) {
      var k := WithinAt(firsts, items, i);
      var l := WithinAt(firsts, items, j);
      assert key(firsts[i]) != key(firsts[j]);
    }
  }

  // With different ids, all the items come out, those first of their key in front.
  lemma FilledTakesAll(items: seq<Record>, key: Record -> string)
    requires DistinctBy(items, IdOf)
    ensures var firsts, all := FirstOfEach(items, key), Filled(FirstOfEach(items, key), items);
      && firsts <= all && |all| == |items| && DistinctBy(all, IdOf) && Within(all, items)
      && KeySet(all, key) == KeySet(firsts, key) == KeySet(items, key) && DistinctBy(firsts, key)
  {
    var firsts := FirstOfEach(items, key);
    var all := Filled(firsts, items);
    FirstOfEachKeys(items, key);
    FirstsWithin(items, key);
    FirstsAreDistinct(items, key);
    FilledIsComplete(firsts, items);
    KeySetSize(items, IdOf);
    KeySetSize(all, IdOf);
    KeySetWithin(all, items, key);
    PrefixWithin(firsts, all);
    KeySetWithin(firsts, all, key);
  }

  // A cut list has as many keys as the limit allows, when one of each key comes first.
  lemma CutCovers(all: seq<Record>, firsts: seq<Record>, limit: nat, key: Record -> string)
    requires firsts <= all && DistinctBy(firsts, key) && KeySet(all, key) == KeySet(firsts, key)
    ensures |KeySet(Cut(all, limit), key)| == Min(limit, |KeySet(all, key)|)
  {
    var sample := Cut(all, limit);
    KeySetSize(firsts, key);
    if limit >= |firsts| {
      PrefixWithin(sample, all);
      KeySetWithin(sample, all, key);
      assert firsts <= sample;
      PrefixWithin(firsts, sample);
      KeySetWithin(firsts, sample, key);
      assert KeySet(sample, key) == KeySet(all, key);
    } else {
      assert sample == firsts[..limit];
      KeySetSize(sample, key);
    }
  }

  // Filling up keeps what was selected in front, and takes nothing else but the items.
  lemma {:induction false} FilledExtends(selected: seq<Record>, items: seq<Record>)
    ensures selected <= Filled(selected, items) && Within(Filled(selected, items), selected + items)
  {
    if items != [] {
      FilledExtends(selected, items[..|items| - 1]);
      assert selected + items == (selected + items[..|items| - 1]) + [items[|items| - 1]];
    }
  }

  // One item of each key comes first, whatever the ids.
  lemma FirstsInFront(items: seq<Record>, key: Record -> string)
    ensures var firsts, all := FirstOfEach(items, key), Filled(FirstOfEach(items, key), items);
      && firsts <= all && Within(all, items) && DistinctBy(firsts, key)
      && KeySet(all, key) == KeySet(firsts, key) == KeySet(items, key)
  {
    var firsts := FirstOfEach(items, key);
    var all := Filled(firsts, items);
    FirstOfEachKeys(items, key);
    FirstsWithin(items, key);
    FilledExtends(firsts, items);
    forall r | r in all ensures r in items { assert r in firsts + items; }
    KeySetWithin(all, items, key);
    PrefixWithin(firsts, all);
    KeySetWithin(firsts, all, key);
  }

  // A sample of the items with as many keys as the limit allows.
  ghost predicate SampleCovers(sample: seq<Record>, items: seq<Record>, limit: nat, key: Record -> string) {
    |sample| <= limit && Within(sample, items) && |KeySet(sample, key)| == Min(limit, |KeySet(items, key)|)
  }

  lemma CutOfAll(items: seq<Record>, limit: nat, key: Record -> string)
    ensures var sample := Cut(Filled(FirstOfEach(items, key), items), limit);
      && SampleCovers(sample, items, limit, key)
      && (DistinctBy(items, IdOf) ==> |sample| == Min(limit, |items|) && DistinctBy(sample, IdOf))
  {
    var firsts, all := FirstOfEach(items, key), Filled(FirstOfEach(items, key), items);
    FirstsInFront(items, key);
    CutCovers(all, firsts, limit, key);
    PrefixWithin(Cut(all, limit), all);
    WithinAgain(Cut(all, limit), all, items);
    if DistinctBy(items, IdOf) { FilledTakesAll(items, key); }
  }

  // The sample of the macro and singularity tiers: records of the pool, from as many signatures as the
  // limit allows; and when the ids differ, as many different records as it allows.
  lemma RepresentativesCover(items: seq<Record>, limit: nat, tier: Tier, fingerprint: Record -> string)
    requires tier == Macro || tier == Singularity
    ensures var sample := Representatives(items, limit, tier, fingerprint);
      && SampleCovers(sample, items, limit, if tier == Singularity then fingerprint else SignatureOf)
      && (DistinctBy(items, IdOf) ==> |sample| == Min(limit, |items|) && DistinctBy(sample, IdOf))
  {
    CutOfAll(items, limit, if tier == Singularity then fingerprint else SignatureOf);
  }

  // Its leading records are the earliest of their signatures, in the order of the pool.
  lemma RepresentativesAreEarliest(items: seq<Record>, limit: nat, tier: Tier, fingerprint: Record -> string, i: nat)
    requires tier == Macro || tier == Singularity
    requires i < Min(limit, |KeySet(items, if tier == Singularity then fingerprint else SignatureOf)|)
    ensures IsEarliest(Representatives(items, limit, tier, fingerprint), items,
                       if tier == Singularity then fingerprint else SignatureOf, i)
  {
    CutIsEarliest(items, limit, if tier == Singularity then fingerprint else SignatureOf, i);
  }

  ghost predicate IsEarliest(sample: seq<Record>, items: seq<Record>, key: Record -> string, i: nat) {
    && i < |sample| && i < |FirstOfEach(items, key)| && sample[i] == FirstOfEach(items, key)[i]
    && exists k: nat :: IsFirst(items, key, k) && items[k] == sample[i]
  }

  lemma CutIsEarliest(items: seq<Record>, limit: nat, key: Record -> string, i: nat)
    requires i < Min(limit, |KeySet(items, key)|)
    ensures IsEarliest(Cut(Filled(FirstOfEach(items, key), items), limit), items, key, i)
  {
    var firsts, all := FirstOfEach(items, key), Filled(FirstOfEach(items, key), items);
    FilledExtends(firsts, items);
    FirstOfEachKeys(items, key);
    assert Cut(all, limit)[i] == all[i] == firsts[i];
    FirstOfEachIsFirst(items, key, firsts[i]);
  }

  // ---------------------------------------------------------------- temperature

  const RecentCount: nat := 10
  // Five minutes, and the earliest time there is, in microseconds.
  const Window: int := 300_000_000
  const Oldest: int := 0

  type Times = Record -> Option<int>

  function TimeOf(times: Times, r: Record): int {
    match times(r) case None => Oldest case Some(t) => t
  }

  function NewestFirst(times: Times): (Record, Record) -> bool {
    (x: Record, y: Record) => TimeOf(times, x) >= TimeOf(times, y)
  }

  function IdentityOf(r: Record): string { if r.id != "" then r.id else r.signature }

  function Recent(times: Times, now: int): Record -> bool {
    r => times(r).Some? && now - times(r).value <= Window
  }

  function Ordered(records: seq<Record>, times: Times): seq<Record> { Sorted(records, NewestFirst(times)) }

  // The identities of the hot records: the newest ten and those within the window.
  function Hot(ordered: seq<Record>, times: Times, now: int): set<string> {
    KeySet(Cut(ordered, RecentCount), IdentityOf) + KeySet(Filter(ordered, Recent(times, now)), IdentityOf)
  }

  // The records carry the same id, or where one has none its signature.
  ghost predicate SameIdentity(x: Record, y: Record) {
    (if x.id != "" then x.id else x.signature) == (if y.id != "" then y.id else y.signature)
  }

  // A record is hot by itself among the first ten of the order, or within five minutes.
  ghost predicate HotAt(ordered: seq<Record>, times: Times, now: int, i: nat) {
    i < |ordered| && (i < 10 || (times(ordered[i]).Some? && now - times(ordered[i]).value <= 300_000_000))
  }

  // Newest first; without a time a record counts as the oldest.
  ghost predicate NewestFront(ordered: seq<Record>, times: Times) {
    forall i, j | 0 <= i < j < |ordered| ::
      (match times(ordered[i]) case None => 0 case Some(t) => t)
      >= (match times(ordered[j]) case None => 0 case Some(t) => t)
  }

  ghost predicate HotLike(ordered: seq<Record>, times: Times, now: int, r: Record) {
    exists i: nat :: HotAt(ordered, times, now, i) && SameIdentity(r, ordered[i])
  }

  // A record goes to the hot part exactly when it has the identity of one that is hot by itself.
  lemma HotIdentities(records: seq<Record>, times: Times, now: int, r: Record)
    ensures var ordered := Ordered(records, times);
      && (IdentityOf(r) in Hot(ordered, times, now) <==> HotLike(ordered, times, now, r))
      && multiset(ordered) == multiset(records) && NewestFront(ordered, times)
  {
    var ordered, id := Ordered(records, times), IdentityOf(r);
    OrderedIsNewest(records, times);
    if HotLike(ordered, times, now, r) { HotLikeIsHot(ordered, times, now, r); }
    if id in Hot(ordered, times, now) { HotIsHotLike(ordered, times, now, r); }
  }

  lemma HotLikeIsHot(ordered: seq<Record>, times: Times, now: int, r: Record)
    requires HotLike(ordered, times, now, r)
    ensures IdentityOf(r) in Hot(ordered, times, now)
  {
    var i: nat :| HotAt(ordered, times, now, i) && SameIdentity(r, ordered[i]);
    if i < 10 {
      assert Cut(ordered, RecentCount)[i] == ordered[i];
      KeySetIff(Cut(ordered, RecentCount), IdentityOf, IdentityOf(r));
    } else {
      FilterKeeps(ordered, Recent(times, now), ordered[i]);
      var recent := Filter(ordered, Recent(times, now));
      var k :| 0 <= k < |recent| && recent[k] == ordered[i];
      KeySetIff(recent, IdentityOf, IdentityOf(r));
    }
  }

  lemma HotIsHotLike(ordered: seq<Record>, times: Times, now: int, r: Record)
    requires IdentityOf(r) in Hot(ordered, times, now)
    ensures HotLike(ordered, times, now, r)
  {
    var first, recent, id := Cut(ordered, RecentCount), Filter(ordered, Recent(times, now)), IdentityOf(r);
    if id in KeySet(first, IdentityOf) {
      KeySetIff(first, IdentityOf, id);
      var i :| 0 <= i < |first| && IdentityOf(first[i]) == id;
      assert HotAt(ordered, times, now, i) && first[i] == ordered[i];
    } else {
      KeySetIff(recent, IdentityOf, id);
      var k :| 0 <= k < |recent| && IdentityOf(recent[k]) == id;
      FilterKeeps(ordered, Recent(times, now), recent[k]);
      var i :| 0 <= i < |ordered| && ordered[i] == recent[k];
      assert HotAt(ordered, times, now, i);
    }
  }

  // split_temperature_records
  method SplitTemperature(records: seq<Record>, times: Times, now: int)
    returns (active: seq<Record>, compress: seq<Record>)
    ensures var ordered := Ordered(records, times); var hot := Hot(ordered, times, now);
      active == Filter(ordered, r => IdentityOf(r) in hot) && compress == Filter(ordered, r => IdentityOf(r) !in hot)
    ensures exists ordered ::
      && multiset(ordered) == multiset(records) && NewestFront(ordered, times)
      && (forall r :: r in active <==> r in ordered && HotLike(ordered, times, now, r))
      && (forall r :: r in compress <==> r in ordered && !HotLike(ordered, times, now, r))
  {
    var ordered := Sorted(records, NewestFirst(times));
    var first := KeySet(Cut(ordered, RecentCount), IdentityOf);
    var hot := first;
    for i := 0 to |ordered|
      invariant hot == first + RecentIds(ordered[..i], times, now)
    {
      assert ordered[..i + 1] == ordered[..i] + [ordered[i]];
      RecentIdsSnoc(ordered[..i], ordered[i], times, now);
      var time := times(ordered[i]);
      if time.Some? && now - time.value <= Window { hot := hot + {IdentityOf(ordered[i])}; }
    }
    assert ordered[..|ordered|] == ordered;
    active := Filter(ordered, r => IdentityOf(r) in hot);
    compress := Filter(ordered, r => IdentityOf(r) !in hot);
    PartsOfSplit(records, times, now);
  }

  lemma PartsOfSplit(records: seq<Record>, times: Times, now: int)
    ensures var ordered := Ordered(records, times); var hot := Hot(ordered, times, now);
      && multiset(ordered) == multiset(records) && NewestFront(ordered, times)
      && (forall r :: r in Filter(ordered, q => IdentityOf(q) in hot)
            <==> r in ordered && HotLike(ordered, times, now, r))
      && (forall r :: r in Filter(ordered, q => IdentityOf(q) !in hot)
            <==> r in ordered && !HotLike(ordered, times, now, r))
  {
    var ordered := Ordered(records, times);
    var hot := Hot(ordered, times, now);
    forall r
      ensures r in Filter(ordered, q => IdentityOf(q) in hot) <==> r in ordered && HotLike(ordered, times, now, r)
      ensures r in Filter(ordered, q => IdentityOf(q) !in hot) <==> r in ordered && !HotLike(ordered, times, now, r)
    {
      HotIdentities(records, times, now, r);
      FilterKeeps(ordered, q => IdentityOf(q) in hot, r);
      FilterKeeps(ordered, q => IdentityOf(q) !in hot, r);
    }
    OrderedIsNewest(records, times);
  }

  lemma OrderedIsNewest(records: seq<Record>, times: Times)
    ensures multiset(Ordered(records, times)) == multiset(records) && NewestFront(Ordered(records, times), times)
  {
    var ordered := Ordered(records, times);
    SortedIsPermutation(records, NewestFirst(times));
    NewestFirstIsTotal(times);
    SortedInOrder(records, NewestFirst(times));
    forall i, j | 0 <= i < j < |ordered| ensures TimeOf(times, ordered[i]) >= TimeOf(times, ordered[j]) {
      assert NewestFirst(times)(ordered[i], ordered[j]);
    }
  }

  ghost function RecentIds(records: seq<Record>, times: Times, now: int): set<string> {
    KeySet(Filter(records, Recent(times, now)), IdentityOf)
  }

  lemma RecentIdsSnoc(records: seq<Record>, r: Record, times: Times, now: int)
    ensures RecentIds(records + [r], times, now)
         == RecentIds(records, times, now) + (if Recent(times, now)(r) then {IdentityOf(r)} else {})
  {
    FilterSnoc(records, r, Recent(times, now));
    if Recent(times, now)(r) { KeySetSnoc(Filter(records, Recent(times, now)), r, IdentityOf); }
  }

  // How many records are hot: the recent ones, but at least ten if there are so many.
  function HotCount(records: seq<Record>, times: Times, now: int): nat {
    Max(Min(RecentCount, |records|), |Filter(records, Recent(times, now))|)
  }

  lemma NewestFirstIsTotal(times: Times)
    ensures TotalPreorder(NewestFirst(times))
  {
  }

  // The recent records stand before all others.
  lemma RecentArePrefix(records: seq<Record>, times: Times, now: int)
    requires now - Window > Oldest
    ensures var ordered, recent := Ordered(records, times), Recent(times, now);
      && |ordered| == |records| && |Filter(ordered, recent)| == |Filter(records, recent)| <= |records|
      && Filter(ordered, recent) == ordered[..|Filter(records, recent)|]
  {
    var ordered, recent := Ordered(records, times), Recent(times, now);
    NewestFirstIsTotal(times);
    SortedInOrder(records, NewestFirst(times));
    SortedIsPermutation(records, NewestFirst(times));
    forall i, j | 0 <= i < j < |ordered| && recent(ordered[j]) ensures recent(ordered[i]) {
      assert NewestFirst(times)(ordered[i], ordered[j]);
    }
    DownwardFilter(ordered, recent);
    SortedFilterCount(records, NewestFirst(times), recent);
  }

  lemma {:induction false} DownwardFilter<T>(s: seq<T>, keep: T -> bool)
    requires forall i, j | 0 <= i < j < |s| :: keep(s[j]) ==> keep(s[i])
    ensures |Filter(s, keep)| <= |s| && Filter(s, keep) == s[..|Filter(s, keep)|]
  {
    if s != [] {
      var init := s[..|s| - 1];
      DownwardFilter(init, keep);
      if keep(s[|s| - 1]) {
        FilterPrefix(init, keep, |init|);
        assert s == init + [s[|s| - 1]];
      }
    }
  }

  // Whether some identity of the first n records returns after them.
  ghost predicate Returns(ordered: seq<Record>, n: nat) {
    exists i, j | 0 <= i < n <= j < |ordered| :: IdentityOf(ordered[i]) == IdentityOf(ordered[j])
  }

  // The hot identities are those of the first records, as many as are hot.
  lemma HotIsPrefix(records: seq<Record>, times: Times, now: int)
    requires now - Window > Oldest
    ensures var ordered, n := Ordered(records, times), HotCount(records, times, now);
      n <= |ordered| == |records| && Hot(ordered, times, now) == KeySet(ordered[..n], IdentityOf)
  {
    var ordered, n := Ordered(records, times), HotCount(records, times, now);
    var w := |Filter(records, Recent(times, now))|;
    RecentArePrefix(records, times, now);
    var c := Min(RecentCount, |records|);
    assert Cut(ordered, RecentCount) == ordered[..c];
    PrefixKeys(ordered[..c], ordered[..n]);
    PrefixKeys(ordered[..w], ordered[..n]);
  }

  lemma PrefixKeys(a: seq<Record>, b: seq<Record>)
    requires a <= b
    ensures KeySet(a, IdentityOf) <= KeySet(b, IdentityOf)
  {
    PrefixWithin(a, b);
    KeySetWithin(a, b, IdentityOf);
  }

  // The split cuts the newest-first order in two, the hot records in front, exactly when no identity
  // of a hot record returns among the others; with different identities it always does.
  lemma SplitIsCutIff(records: seq<Record>, times: Times, now: int)
    requires now - Window > Oldest
    ensures var ordered, n := Ordered(records, times), HotCount(records, times, now);
      var hot := Hot(ordered, times, now);
      && n <= |ordered|
      && (Filter(ordered, r => IdentityOf(r) in hot) == ordered[..n] <==> !Returns(ordered, n))
      && (DistinctBy(records, IdentityOf) ==> !Returns(ordered, n))
  {
    var ordered, n := Ordered(records, times), HotCount(records, times, now);
    var isHot := (r: Record) => IdentityOf(r) in Hot(ordered, times, now);
    HotIsPrefix(records, times, now);
    HotIff(ordered, n, Hot(ordered, times, now));
    if !Returns(ordered, n) {
      FilterPrefix(ordered, isHot, n);
    } else {
      var i, j :| 0 <= i < n <= j < |ordered| && IdentityOf(ordered[i]) == IdentityOf(ordered[j]);
      FilterExceeds(ordered, isHot, n, j);
    }
    if DistinctBy(records, IdentityOf) { DistinctSorted(records, NewestFirst(times)); }
  }

  lemma HotIff(ordered: seq<Record>, n: nat, hot: set<string>)
    requires n <= |ordered| && hot == KeySet(ordered[..n], IdentityOf)
    ensures forall i | 0 <= i < n :: IdentityOf(ordered[i]) in hot
    ensures forall j | n <= j < |ordered| :: IdentityOf(ordered[j]) in hot ==> Returns(ordered, n)
    ensures Returns(ordered, n) ==> exists j | n <= j < |ordered| :: IdentityOf(ordered[j]) in hot
  {
    forall i | 0 <= i < n ensures IdentityOf(ordered[i]) in hot {
      KeySetIff(ordered[..n], IdentityOf, IdentityOf(ordered[i]));
      assert ordered[..n][i] == ordered[i];
    }
    forall j | n <= j < |ordered| && IdentityOf(ordered[j]) in hot ensures Returns(ordered, n) {
      KeySetIff(ordered[..n], IdentityOf, IdentityOf(ordered[j]));
    }
  }

  // A filter that keeps a prefix and something behind it keeps more than the prefix.
  lemma {:induction false} FilterExceeds<T>(s: seq<T>, keep: T -> bool, n: nat, j: nat)
    requires n <= j < |s| && keep(s[j]) && forall i | 0 <= i < n :: keep(s[i])
    ensures |Filter(s, keep)| > n
  {
    var init := s[..|s| - 1];
    if j < |s| - 1 {
      FilterExceeds(init, keep, n, j);
    } else {
      FilterAtLeast(init, keep, n);
    }
  }

  lemma {:induction false} FilterAtLeast<T>(s: seq<T>, keep: T -> bool, n: nat)
    requires n <= |s| && forall i | 0 <= i < n :: keep(s[i])
    ensures |Filter(s, keep)| >= n
  {
    if n > 0 { FilterAtLeast(s[..|s| - 1], keep, if n <= |s| - 1 then n else |s| - 1); }
  }

  lemma DistinctSorted(records: seq<Record>, before: (Record, Record) -> bool)
    requires DistinctBy(records, IdentityOf)
    ensures DistinctBy(Sorted(records, before), IdentityOf)
  {
    var sorted := Sorted(records, before);
    SortedIsPermutation(records, before);
    forall x | x in records ensures x in sorted { InSorted(records, before, x); }
    forall x | x in sorted ensures x in records { InSorted(records, before, x); }
    KeySetWithin(records, sorted, IdentityOf);
    KeySetWithin(sorted, records, IdentityOf);
    assert KeySet(records, IdentityOf) == KeySet(sorted, IdentityOf);
    KeySetSize(records, IdentityOf);
    KeySetSize(sorted, IdentityOf);
  }

  // ---------------------------------------------------------------- the best group

  datatype GroupKind = Semantic | Mixed

  datatype Key = Key(project: string, topic: string)

  function BatchProject(r: Record): string { if r.project != "" then r.project else DefaultProject }

  function KeyOf(kind: GroupKind, r: Record, rd: Reader): Key {
    Key(BatchProject(r), if kind == Semantic then rd.topic(r.item) else "mixed")
  }

  /** What the groups are made from: the records of the chosen project, or of all, by kind. */
  datatype Grouping = Grouping(project: string, kind: GroupKind, rd: Reader)

  predicate IsIn(g: Grouping, key: Key, r: Record) {
    (g.project == "" || BatchProject(r) == g.project) && KeyOf(g.kind, r, g.rd) == key
  }

  function Group(records: seq<Record>, g: Grouping, key: Key): seq<Record> {
    Filter(records, r => IsIn(g, key, r))
  }

  // The keys of the groups, in the order in which they first appear.
  function GroupKeys(records: seq<Record>, g: Grouping): seq<Key> {
    if records == [] then []
    else
      var rest, last := GroupKeys(records[..|records| - 1], g), records[|records| - 1];
      var key := KeyOf(g.kind, last, g.rd);
      if IsIn(g, key, last) && key !in rest then rest + [key] else rest
  }

  function ScoreSum(items: seq<Record>, rd: Reader): int {
    if items == [] then 0 else ScoreSum(items[..|items| - 1], rd) + rd.score(items[|items| - 1].item)
  }

  function Weight(items: seq<Record>, g: Grouping): int {
    ScoreSum(items, g.rd) + |items| * (if g.kind == Semantic then 3 else 1)
  }

  datatype Candidate = Candidate(weight: int, key: Key, items: seq<Record>)

  // The groups that are large enough, in the order of their keys.
  function Candidates(keys: seq<Key>, records: seq<Record>, g: Grouping, minBatch: nat): seq<Candidate> {
    if keys == [] then []
    else
      var rest, key := Candidates(keys[..|keys| - 1], records, g, minBatch), keys[|keys| - 1];
      var items := Group(records, g, key);
      if |items| >= minBatch then rest + [Candidate(Weight(items, g), key, items)] else rest
  }

  function CandidatesOf(records: seq<Record>, g: Grouping, minBatch: nat): seq<Candidate> {
    Candidates(GroupKeys(records, g), records, g, minBatch)
  }

  function Heaviest(): (Candidate, Candidate) -> bool {
    (x: Candidate, y: Candidate) => x.weight > y.weight || (x.weight == y.weight && |x.items| >= |y.items|)
  }

  datatype Batch = Batch(project: string, topic: string, kind: GroupKind, tier: Tier,
                         pool: seq<Record>, selected: seq<Record>, archive: seq<Record>)

  function BatchOf(c: Candidate, g: Grouping, o: Options, fingerprint: Record -> string): Batch {
    var pool := Sorted(c.items, ByScore(g.rd));
    var tier := TierForCount(|pool|);
    var selected := Representatives(pool, PromptLimit(tier, o), tier, fingerprint);
    Batch(c.key.project, c.key.topic, g.kind, tier, pool, selected, ArchiveRecords(tier, pool, selected))
  }

  // The project groups count only when no semantic group is large enough.
  function GroupingFor(records: seq<Record>, o: Options, rd: Reader): Grouping {
    var semantic := Grouping(o.project, Semantic, rd);
    if CandidatesOf(records, semantic, o.minBatch) != [] then semantic else Grouping(o.project, Mixed, rd)
  }

  function BestBatch(records: seq<Record>, o: Options, rd: Reader, fingerprint: Record -> string): Option<Batch> {
    var g := GroupingFor(records, o, rd);
    var candidates := CandidatesOf(records, g, o.minBatch);
    var sorted := Sorted(candidates, Heaviest());
    if sorted == [] then None else Some(BatchOf(sorted[0], g, o, fingerprint))
  }

  // The loop that fills the groups.
  method GroupRecords(records: seq<Record>, g: Grouping) returns (keys: seq<Key>, groups: map<Key, seq<Record>>)
    ensures keys == GroupKeys(records, g)
    ensures forall key :: key in groups <==> key in keys
    ensures forall key <- groups :: groups[key] == Group(records, g, key)
  {
    keys, groups := [], map[];
    for i := 0 to |records|
      invariant keys == GroupKeys(records[..i], g)
      invariant forall key :: key in groups <==> key in keys
      invariant forall key <- groups :: groups[key] == Group(records[..i], g, key)
    {
      var r := records[i];
      var key := KeyOf(g.kind, r, g.rd);
      assert records[..i + 1] == records[..i] + [r];
      assert records[..i + 1][..i] == records[..i];
      forall k
        ensures Group(records[..i + 1], g, k) == Group(records[..i], g, k) + (if IsIn(g, k, r) then [r] else [])
      {
        FilterSnoc(records[..i], r, q => IsIn(g, k, q));
      }
      if g.project != "" && BatchProject(r) != g.project { continue; }
      if key in groups {
        groups := groups[key := groups[key] + [r]];
      } else {
        NoGroupYet(records[..i], g, key);
        keys, groups := keys + [key], groups[key := [r]];
      }
    }
    assert records[..|records|] == records;
  }

  lemma {:induction false} GroupKeysIff(records: seq<Record>, g: Grouping, key: Key)
    ensures key in GroupKeys(records, g) <==> Group(records, g, key) != []
  {
    if records != [] { GroupKeysIff(records[..|records| - 1], g, key); }
  }

  lemma NoGroupYet(records: seq<Record>, g: Grouping, key: Key)
    requires key !in GroupKeys(records, g)
    ensures Group(records, g, key) == []
  {
    GroupKeysIff(records, g, key);
  }

  method CollectCandidates(records: seq<Record>, g: Grouping, minBatch: nat) returns (candidates: seq<Candidate>)
    ensures candidates == CandidatesOf(records, g, minBatch)
  {
    var keys, groups := GroupRecords(records, g);
    candidates := [];
    for i := 0 to |keys|
      invariant candidates == Candidates(keys[..i], records, g, minBatch)
    {
      var key := keys[i];
      assert key in keys;
      CandidatesSnoc(keys[..i], key, records, g, minBatch);
      assert keys[..i + 1] == keys[..i] + [key];
      if |groups[key]| >= minBatch {
        candidates := candidates + [Candidate(Weight(groups[key], g), key, groups[key])];
      }
    }
    assert keys[..|keys|] == keys;
  }

  lemma CandidatesSnoc(keys: seq<Key>, key: Key, records: seq<Record>, g: Grouping, minBatch: nat)
    ensures var items := Group(records, g, key);
      Candidates(keys + [key], records, g, minBatch)
      == Candidates(keys, records, g, minBatch)
         + (if |items| >= minBatch then [Candidate(Weight(items, g), key, items)] else [])
  {
    assert (keys + [key])[..|keys|] == keys;
  }

  // select_batch
  method SelectBatch(records: seq<Record>, o: Options, rd: Reader, fingerprint: Record -> string)
    returns (batch: Option<Batch>)
    ensures batch == BestBatch(records, o, rd, fingerprint)
    ensures batch.Some? && o.minBatch > 0 ==> IsBest(batch.value, records, o, rd)
    ensures o.minBatch > 0 ==>
      (batch == None <==> forall project, topic :: |Members(records, project, topic, Mixed, o, rd)| < o.minBatch)
  {
    if o.minBatch > 0 { SelectedIsBest(records, o, rd, fingerprint); }
    var g := Grouping(o.project, Semantic, rd);
    var candidates := CollectCandidates(records, g, o.minBatch);
    if candidates == [] {
      g := Grouping(o.project, Mixed, rd);
      candidates := CollectCandidates(records, g, o.minBatch);
    }
    SortedIsPermutation(candidates, Heaviest());
    if candidates == [] { return None; }
    var best := Sorted(candidates, Heaviest())[0];
    var pool := Sorted(best.items, ByScore(rd));
    var tier := TierForCount(|pool|);
    var selected := RepresentativeRecords(pool, PromptLimit(tier, o), tier, fingerprint);
    var archive := ArchiveRecords(tier, pool, selected);
    batch := Some(Batch(best.key.project, best.key.topic, g.kind, tier, pool, selected, archive));
  }

  // ---------------------------------------------------------------- what is selected

  predicate IsCandidate(c: Candidate, records: seq<Record>, g: Grouping, minBatch: nat) {
    c.items == Group(records, g, c.key) && c.weight == Weight(c.items, g) && |c.items| >= minBatch
  }

  lemma {:induction false} CandidatesIff(keys: seq<Key>, records: seq<Record>, g: Grouping, minBatch: nat, c: Candidate)
    ensures c in Candidates(keys, records, g, minBatch) <==> c.key in keys && IsCandidate(c, records, g, minBatch)
  {
    if keys != [] {
      CandidatesIff(keys[..|keys| - 1], records, g, minBatch, c);
      assert keys == keys[..|keys| - 1] + [keys[|keys| - 1]];
    }
  }

  // The candidates are all the groups that are large enough, whatever their key.
  lemma CandidatesAreLargeGroups(records: seq<Record>, g: Grouping, minBatch: nat, c: Candidate)
    requires minBatch > 0
    ensures c in CandidatesOf(records, g, minBatch) <==> IsCandidate(c, records, g, minBatch)
  {
    CandidatesIff(GroupKeys(records, g), records, g, minBatch, c);
    GroupKeysIff(records, g, c.key);
  }

  lemma HeaviestIsTotal()
    ensures TotalPreorder(Heaviest())
  {
  }

  // The pool is a whole group, sorted; no other group of its kind that is large enough weighs more;
  // and a project group is taken only when no semantic group is large enough.
  lemma BatchIsBest(records: seq<Record>, o: Options, rd: Reader, fingerprint: Record -> string)
    requires o.minBatch > 0 && BestBatch(records, o, rd, fingerprint).Some?
    ensures var b := BestBatch(records, o, rd, fingerprint).value;
      var g := Grouping(o.project, b.kind, rd); var group := Group(records, g, Key(b.project, b.topic));
      && multiset(b.pool) == multiset(group) && |b.pool| == |group| >= o.minBatch && InOrder(b.pool, ByScore(rd))
      && (forall key | |Group(records, g, key)| >= o.minBatch ::
            Heaviest()(Candidate(Weight(group, g), Key(b.project, b.topic), group),
                       Candidate(Weight(Group(records, g, key), g), key, Group(records, g, key))))
      && (b.kind == Mixed ==>
            forall key :: |Group(records, Grouping(o.project, Semantic, rd), key)| < o.minBatch)
  {
    var g := GroupingFor(records, o, rd);
    var candidates := CandidatesOf(records, g, o.minBatch);
    SortedIsPermutation(candidates, Heaviest());
    HeaviestIsTotal();
    FirstIsBest(candidates, Heaviest());
    var best := Sorted(candidates, Heaviest())[0];
    CandidatesAreLargeGroups(records, g, o.minBatch, best);
    SortedIsPermutation(best.items, ByScore(rd));
    ByScoreIsTotal(rd);
    SortedInOrder(best.items, ByScore(rd));
    forall key | |Group(records, g, key)| >= o.minBatch
      ensures Heaviest()(best, Candidate(Weight(Group(records, g, key), g), key, Group(records, g, key)))
    {
      var c := Candidate(Weight(Group(records, g, key), g), key, Group(records, g, key));
      CandidatesAreLargeGroups(records, g, o.minBatch, c);
      assert Heaviest()(best, c);
    }
    if g.kind == Mixed { NoLargeGroup(records, Grouping(o.project, Semantic, rd), o.minBatch); }
  }

  lemma NoLargeGroup(records: seq<Record>, g: Grouping, minBatch: nat)
    requires minBatch > 0
    ensures CandidatesOf(records, g, minBatch) == [] <==> forall key :: |Group(records, g, key)| < minBatch
  {
    var candidates := CandidatesOf(records, g, minBatch);
    if candidates != [] {
      var c := candidates[0];
      CandidatesAreLargeGroups(records, g, minBatch, c);
      assert |Group(records, g, c.key)| >= minBatch;
    } else {
      forall key ensures |Group(records, g, key)| < minBatch {
        var c := Candidate(Weight(Group(records, g, key), g), key, Group(records, g, key));
        CandidatesAreLargeGroups(records, g, minBatch, c);
      }
    }
  }

  lemma {:induction false} FilterMonotone<T>(s: seq<T>, a: T -> bool, b: T -> bool)
    requires forall x <- s :: a(x) ==> b(x)
    ensures |Filter(s, a)| <= |Filter(s, b)|
  {
    if s != [] {
      assert forall x <- s[..|s| - 1] :: x in s;
      assert s[|s| - 1] in s;
      FilterMonotone(s[..|s| - 1], a, b);
    }
  }

  // ---------------------------------------------------------------- the best group, from the records

  // The record belongs to the project and, in a semantic group, has the topic; other projects than the chosen
  // one have no groups.
  ghost predicate Belongs(r: Record, project: string, topic: string, kind: GroupKind, o: Options, rd: Reader) {
    && project == (if r.project != "" then r.project else "e-github-workspace")
    && topic == (if kind == Semantic then rd.topic(r.item) else "mixed")
    && (o.project != "" ==> project == o.project)
  }

  ghost function Members(records: seq<Record>, project: string, topic: string, kind: GroupKind, o: Options,
                   rd: Reader): seq<Record> {
    Filter(records, r => Belongs(r, project, topic, kind, o, rd))
  }

  // The scores and three more for each record of a semantic group, one more for each of a project group.
  ghost function Total(members: seq<Record>, kind: GroupKind, rd: Reader): int {
    match kind
    case Semantic => ScoreSum(members, rd) + 3 * |members|
    case Mixed => ScoreSum(members, rd) + |members|
  }

  // The sum is the one of the single scores.
  lemma {:induction false} ScoreSumAdds(a: seq<Record>, b: seq<Record>, r: Record, rd: Reader)
    ensures ScoreSum([], rd) == 0 && ScoreSum([r], rd) == rd.score(r.item)
    ensures ScoreSum(a + b, rd) == ScoreSum(a, rd) + ScoreSum(b, rd)
  {
    assert [r][..0] == [];
    if b == [] {
      assert a + b == a;
    } else {
      ScoreSumAdds(a, b[..|b| - 1], r, rd);
      assert (a + b)[..|a + b| - 1] == a + b[..|b| - 1];
    }
  }

  // The pool is a whole group of enough records, ranked.  No other group of its kind with enough records has a
  // larger total, or the same and more records; a project group is taken only without a semantic one.
  ghost predicate IsBest(b: Batch, records: seq<Record>, o: Options, rd: Reader) {
    var members := Members(records, b.project, b.topic, b.kind, o, rd);
    && multiset(b.pool) == multiset(members) && |b.pool| == |members| >= o.minBatch && Ranked(b.pool, rd)
    && (forall project, topic | |Members(records, project, topic, b.kind, o, rd)| >= o.minBatch ::
          var others := Members(records, project, topic, b.kind, o, rd);
          || Total(others, b.kind, rd) < Total(members, b.kind, rd)
          || (Total(others, b.kind, rd) == Total(members, b.kind, rd) && |others| <= |members|))
    && (b.kind == Mixed ==>
          forall project, topic :: |Members(records, project, topic, Semantic, o, rd)| < o.minBatch)
    && b.tier == (if |b.pool| >= 10000 then BigBang else if |b.pool| >= 1000 then Singularity
                  else if |b.pool| >= 100 then Macro else Micro)
    && b.archive == (if |b.pool| < 100 then b.selected else b.pool)
  }

  lemma {:induction false} MembersAreGroup(records: seq<Record>, project: string, topic: string, kind: GroupKind,
                                           o: Options, rd: Reader)
    ensures Members(records, project, topic, kind, o, rd)
         == Group(records, Grouping(o.project, kind, rd), Key(project, topic))
  {
    if records != [] { MembersAreGroup(records[..|records| - 1], project, topic, kind, o, rd); }
  }

  lemma TotalIsWeight(members: seq<Record>, project: string, kind: GroupKind, rd: Reader)
    ensures Total(members, kind, rd) == Weight(members, Grouping(project, kind, rd))
  {
  }

  lemma SelectedIsBest(records: seq<Record>, o: Options, rd: Reader, fingerprint: Record -> string)
    requires o.minBatch > 0
    ensures var batch := BestBatch(records, o, rd, fingerprint);
      && (batch.Some? ==> IsBest(batch.value, records, o, rd))
      && (batch == None <==> forall project, topic :: |Members(records, project, topic, Mixed, o, rd)| < o.minBatch)
  {
    NothingToDoIff(records, o, rd, fingerprint);
    NoGroupsIff(records, o, rd);
    if BestBatch(records, o, rd, fingerprint).Some? { BestIsBest(records, o, rd, fingerprint); }
  }

  lemma NoGroupsIff(records: seq<Record>, o: Options, rd: Reader)
    ensures (forall key :: |Group(records, Grouping(o.project, Mixed, rd), key)| < o.minBatch)
       <==> forall project, topic :: |Members(records, project, topic, Mixed, o, rd)| < o.minBatch
  {
    forall key: Key
      ensures Members(records, key.project, key.topic, Mixed, o, rd)
           == Group(records, Grouping(o.project, Mixed, rd), key)
    {
      MembersAreGroup(records, key.project, key.topic, Mixed, o, rd);
    }
    forall project, topic
      ensures Members(records, project, topic, Mixed, o, rd)
           == Group(records, Grouping(o.project, Mixed, rd), Key(project, topic))
    {
      MembersAreGroup(records, project, topic, Mixed, o, rd);
    }
  }

  lemma BestIsBest(records: seq<Record>, o: Options, rd: Reader, fingerprint: Record -> string)
    requires o.minBatch > 0 && BestBatch(records, o, rd, fingerprint).Some?
    ensures IsBest(BestBatch(records, o, rd, fingerprint).value, records, o, rd)
  {
    var b := BestBatch(records, o, rd, fingerprint).value;
    var g, members := Grouping(o.project, b.kind, rd), Members(records, b.project, b.topic, b.kind, o, rd);
    BatchIsBest(records, o, rd, fingerprint);
    MembersAreGroup(records, b.project, b.topic, b.kind, o, rd);
    InOrderIsRanked(b.pool, rd);
    forall project, topic | |Members(records, project, topic, b.kind, o, rd)| >= o.minBatch
      ensures var others := Members(records, project, topic, b.kind, o, rd);
        || Total(others, b.kind, rd) < Total(members, b.kind, rd)
        || (Total(others, b.kind, rd) == Total(members, b.kind, rd) && |others| <= |members|)
    {
      MembersAreGroup(records, project, topic, b.kind, o, rd);
    }
    if b.kind == Mixed {
      forall project, topic ensures |Members(records, project, topic, Semantic, o, rd)| < o.minBatch {
        MembersAreGroup(records, project, topic, Semantic, o, rd);
      }
    }
  }

  // A pass finds nothing to do exactly when no project has enough records.
  lemma NothingToDoIff(records: seq<Record>, o: Options, rd: Reader, fingerprint: Record -> string)
    requires o.minBatch > 0
    ensures BestBatch(records, o, rd, fingerprint) == None <==>
      forall key :: |Group(records, Grouping(o.project, Mixed, rd), key)| < o.minBatch
  {
    var semantic, mixed := Grouping(o.project, Semantic, rd), Grouping(o.project, Mixed, rd);
    NoLargeGroup(records, semantic, o.minBatch);
    NoLargeGroup(records, mixed, o.minBatch);
    SortedIsPermutation(CandidatesOf(records, GroupingFor(records, o, rd), o.minBatch), Heaviest());
    if key :| |Group(records, semantic, key)| >= o.minBatch {
      var whole := Key(key.project, "mixed");
      FilterMonotone(records, r => IsIn(semantic, key, r), r => IsIn(mixed, whole, r));
      assert |Group(records, mixed, whole)| >= o.minBatch;
    }
  }

  // What a pass archives is at least ten records from the front of its pool: all of it in the higher
  // tiers, what the model was shown in the lowest.
  lemma ArchiveIsLarge(records: seq<Record>, o: Options, rd: Reader, fingerprint: Record -> string)
    requires Bounded(o) && BestBatch(records, o, rd, fingerprint).Some?
    ensures var b := BestBatch(records, o, rd, fingerprint).value;
      b.archive <= b.pool && |b.archive| >= 10 && b.archive == if b.tier == Micro then b.selected else b.pool
  {
    BatchIsBest(records, o, rd, fingerprint);
  }

  // How many records the model is shown, by the size of the pool.
  lemma SampleSize(records: seq<Record>, o: Options, rd: Reader, fingerprint: Record -> string)
    requires Bounded(o) && BestBatch(records, o, rd, fingerprint).Some?
    requires var n := |BestBatch(records, o, rd, fingerprint).value.pool|;
      100 <= n < 10000 ==> DistinctBy(BestBatch(records, o, rd, fingerprint).value.pool, IdOf)
    ensures var b := BestBatch(records, o, rd, fingerprint).value; var n := |b.pool|;
      |b.selected| == if n >= 10000 then 0 else if n >= 1000 then 10 else if n >= 100 then 30
                      else Min(n, Min(o.maxBatch, 20))
  {
    var b := BestBatch(records, o, rd, fingerprint).value;
    if b.tier == Macro || b.tier == Singularity {
      RepresentativesCover(b.pool, PromptLimit(b.tier, o), b.tier, fingerprint);
    }
  }

  // All of it is of the one group.
  lemma ArchiveIsOneGroup(records: seq<Record>, o: Options, rd: Reader, fingerprint: Record -> string, r: Record)
    requires Bounded(o) && BestBatch(records, o, rd, fingerprint).Some?
    requires r in BestBatch(records, o, rd, fingerprint).value.archive
    ensures var b := BestBatch(records, o, rd, fingerprint).value;
      r in records && IsIn(Grouping(o.project, b.kind, rd), Key(b.project, b.topic), r)
  {
    var b := BestBatch(records, o, rd, fingerprint).value;
    BatchIsBest(records, o, rd, fingerprint);
    ArchiveIsLarge(records, o, rd, fingerprint);
    var g, key := Grouping(o.project, b.kind, rd), Key(b.project, b.topic);
    PrefixWithin(b.archive, b.pool);
    assert r in multiset(b.pool) && r in multiset(Group(records, g, key));
    FilterKeeps(records, q => IsIn(g, key, q), r);
  }
}
