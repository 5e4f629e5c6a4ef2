/** An applying pass of the crystallizer (scripts/bhm_crystallize_worker_execution.py:113-141,
    scripts/bhm_crystallize_worker_consolidation.py:310-403, 787-837): write or extend a crystal, then
    archive what it was made from.  `Stores.fuel` is the number of calls that still succeed, so a contract
    that holds for every fuel holds wherever a pass stops.  Of a stored memory only its activity matters. */
module Pass {
  import opened Text
  import opened Seqs
  import opened Payloads
  import opened Sorting
  import opened Harvest
  import opened Selection
  import opened Journal
  import opened Agreement

  // ---------------------------------------------------------------- which crystal

  /** A crystal the searches found, with its score against the new one and whether it is about the
      same problem. */
  datatype CrystalHit = CrystalHit(id: string, score: real, sources: int, updated: string, sameEntity: bool)

  const MinScore: real := 0.42
  const ArchiveScore: real := 0.66

  predicate HitGe(x: CrystalHit, y: CrystalHit) {
    || x.score > y.score
    || (x.score == y.score && (x.sources > y.sources || (x.sources == y.sources && TextGe(x.updated, y.updated))))
  }

  function BestFirst(): (CrystalHit, CrystalHit) -> bool { (x, y) => HitGe(x, y) }

  predicate IsRedundant(base: CrystalHit, x: CrystalHit) {
    x.id != base.id && (x.score >= ArchiveScore || x.sameEntity)
  }

  datatype Choice = Choice(base: CrystalHit, redundant: seq<CrystalHit>)

  // The choice of consolidate_long_term_crystal.
  function Choose(hits: seq<CrystalHit>): Option<Choice> {
    var scored := Sorted(Overlapping(hits), BestFirst());
    if scored == [] then None else Some(Choice(scored[0], Filter(scored[1..], x => IsRedundant(scored[0], x))))
  }

  lemma BestFirstIsTotal()
    ensures TotalPreorder(BestFirst())
  {
    var before := BestFirst();
    forall x: CrystalHit, y: CrystalHit ensures before(x, y) || before(y, x) { TextGeTotal(x.updated, y.updated); }
    forall x: CrystalHit, y: CrystalHit, z: CrystalHit | before(x, y) && before(y, z) ensures before(x, z) {
      if TextGe(x.updated, y.updated) && TextGe(y.updated, z.updated) {
        TextGeTransitive(x.updated, y.updated, z.updated);
      }
    }
  }

  function Overlapping(hits: seq<CrystalHit>): seq<CrystalHit> {
    Filter(hits, (x: CrystalHit) => x.score >= MinScore)
  }

  lemma OverlappingIff(hits: seq<CrystalHit>, x: CrystalHit)
    ensures x in Overlapping(hits) <==> x in hits && x.score >= MinScore
    ensures x in Sorted(Overlapping(hits), BestFirst()) <==> x in hits && x.score >= MinScore
  {
    FilterKeeps(hits, (y: CrystalHit) => y.score >= MinScore, x);
    InSorted(Overlapping(hits), BestFirst(), x);
  }

  // A crystal is extended exactly when one overlaps enough; it is the best of them, and the others are
  // archived exactly when they overlap strongly or are about the same problem.
  lemma ChoiceIsBest(hits: seq<CrystalHit>, x: CrystalHit)
    ensures Choose(hits) == None <==> forall y <- hits :: y.score < 0.42
    ensures Choose(hits).Some? ==>
      var c := Choose(hits).value;
      && c.base in hits && c.base.score >= 0.42
      && (x in hits && x.score >= 0.42 ==>
            && c.base.score >= x.score
            && (c.base.score == x.score ==> c.base.sources >= x.sources)
            && (c.base.score == x.score && c.base.sources == x.sources ==> NotEarlier(c.base.updated, x.updated)))
      && (x in c.redundant <==>
            x in hits && x.score >= 0.42 && x.id != c.base.id && (x.score >= 0.66 || x.sameEntity))
  {
    var scored := Sorted(Overlapping(hits), BestFirst());
    SortedIsPermutation(Overlapping(hits), BestFirst());
    forall y | y in hits && y.score >= MinScore ensures y in Overlapping(hits) { OverlappingIff(hits, y); }
    if scored != [] {
      BestFirstIsTotal();
      FirstIsBest(Overlapping(hits), BestFirst());
      OverlappingIff(hits, scored[0]);
      OverlappingIff(hits, x);
      RestIff(scored, x);
      TextGeIff(scored[0].updated, x.updated);
      if x in Overlapping(hits) { assert BestFirst()(scored[0], x); }
    }
  }

  lemma RestIff(scored: seq<CrystalHit>, x: CrystalHit)
    requires scored != []
    ensures x in Filter(scored[1..], y => IsRedundant(scored[0], y)) <==> x in scored && IsRedundant(scored[0], x)
  {
    FilterKeeps(scored[1..], y => IsRedundant(scored[0], y), x);
    assert scored == [scored[0]] + scored[1..];
  }

  // ---------------------------------------------------------------- the effects of a pass

  type Activity = map<string, bool>

  predicate Active(m: Activity, id: string) { id in m && m[id] }

  function SetOf(ids: seq<string>): set<string> { set id <- ids }

  /** What a pass writes: the hub it has to rebuild, if any, and the crystal it extends or, if none, the id
      its new crystal gets; and the batch it condenses. */
  datatype Plan = Plan(hub: Option<string>, choice: Option<Choice>, newCrystal: string, batch: Batch)

  function CrystalOf(p: Plan): string { if p.choice.Some? then p.choice.value.base.id else p.newCrystal }

  function RedundantIds(p: Plan): set<string> {
    if p.choice.Some? then set x <- p.choice.value.redundant :: x.id else {}
  }

  // What tells the records of a batch apart: the id of a memory, the event id of an observation.
  function KeyText(r: Record): string { if r.kind == MemoryItem then r.id else r.item.eventId }

  function TextsOf(records: seq<Record>, kind: Kind): seq<string> {
    if records == [] then []
    else
      var rest, last := TextsOf(records[..|records| - 1], kind), records[|records| - 1];
      if last.kind == kind then rest + [KeyText(last)] else rest
  }

  // The memories a pass archives.
  function MemoryIds(p: Plan): seq<string> { TextsOf(p.batch.archive, MemoryItem) }

  function Hubbed(m: Activity, p: Plan): Activity { if p.hub.Some? then m[p.hub.value := true] else m }

  function Written(m: Activity, p: Plan): Activity {
    if p.choice.Some? then Hubbed(m, p) else Hubbed(m, p)[p.newCrystal := true]
  }

  function Off(m: Activity, ids: set<string>): Activity { map id | id in m :: m[id] && id !in ids }

  function Condensed(m: Activity, p: Plan): Activity { Off(Written(m, p), RedundantIds(p)) }

  function AfterPass(m: Activity, p: Plan): Activity { Off(Condensed(m, p), SetOf(MemoryIds(p))) }

  function RowsAfter(rows: seq<Row>, p: Plan, rd: Reader): seq<Row> {
    Archived(rows, Wanted(IdsFor(rows, p.batch, rd)))
  }

  // The base is an active crystal and not itself among the redundant ones, as the choice guarantees.
  ghost predicate BaseIsActive(m: Activity, p: Plan) {
    p.choice.Some? ==> Active(m, p.choice.value.base.id) && p.choice.value.base.id !in RedundantIds(p)
  }

  lemma ChosenBaseIsKept(hits: seq<CrystalHit>, p: Plan)
    requires Choose(hits).Some? && p.choice == Choose(hits)
    ensures CrystalOf(p) !in RedundantIds(p)
  {
    forall x | x in p.choice.value.redundant ensures x.id != p.choice.value.base.id { ChoiceIsBest(hits, x); }
  }

  // Once any memory or observation has lost its activity, the crystal is active.
  ghost predicate CrystalFirst(m: Activity, rows: seq<Row>, p: Plan, mNow: Activity, rowsNow: seq<Row>) {
    (exists id :: Active(m, id) && !Active(mNow, id)) || rowsNow != rows ==> Active(mNow, CrystalOf(p))
  }

  // Where a pass may stand when it stops: before the crystal, or after it with some of the memories
  // archived; observations only after all memories.
  ghost predicate Reached(m: Activity, rows: seq<Row>, p: Plan, rd: Reader, mNow: Activity, rowsNow: seq<Row>) {
    || (rowsNow == rows && (mNow == m || mNow == Hubbed(m, p) || mNow == Written(m, p)))
    || (rowsNow == rows && PartlyArchived(m, p, mNow))
    || (rowsNow == RowsAfter(rows, p, rd) && mNow == AfterPass(m, p))
  }

  ghost predicate PartlyArchived(m: Activity, p: Plan, mNow: Activity) {
    exists done: set<string> :: done <= SetOf(MemoryIds(p)) && mNow == Off(Condensed(m, p), done)
  }

  // What a completed pass has done.  The new memories are the hub and, where none is extended, the crystal; of
  // all of them those are no longer active that are redundant or that the batch archives; and of the rows those
  // are archived that the batch takes.
  ghost predicate Finished(m: Activity, rows: seq<Row>, p: Plan, rd: Reader, mNow: Activity, rowsNow: seq<Row>) {
    && MemoriesFinished(m, p, mNow)
    && |rowsNow| == |rows|
    && (forall i | 0 <= i < |rows| ::
          rowsNow[i] == if Takes(rows[i], p.batch, rd) then Row(rows[i].item, ArchivedRow) else rows[i])
  }

  ghost predicate MemoriesFinished(m: Activity, p: Plan, mNow: Activity) {
    && (forall id :: id in mNow <==> id in m || Writes(p, id))
    && (forall id :: Active(mNow, id) <==>
          && (Active(m, id) || Writes(p, id))
          && !(p.choice.Some? && exists x <- p.choice.value.redundant :: x.id == id)
          && !(exists r <- p.batch.archive :: r.kind == MemoryItem && r.id == id))
  }

  ghost predicate Writes(p: Plan, id: string) { p.hub == Some(id) || (p.choice == None && id == p.newCrystal) }

  const ChunkSize: nat := 500

  // The calls a pass makes besides those that archive memories.
  const OtherCalls: nat := 6

  // One call for the redundant crystals, if there are any.
  ghost function RedundantCalls(p: Plan): nat { if p.choice.Some? && p.choice.value.redundant != [] then 1 else 0 }

  // The calls of a whole pass: five, one for the redundant crystals, and one for every 500 memories.
  ghost function CallsOf(p: Plan): nat { 5 + RedundantCalls(p) + (|MemoryIds(p)| + 499) / 500 }

  /** How a pass ended: it did everything, ran out of calls that succeed, or had one refused by a store. */
  datatype Outcome = Done | OutOfCalls | Refused

  class Stores {
    const journal: ObservationStore
    const rd: Reader
    var memories: Activity
    var fuel: nat

    constructor (journal: ObservationStore, rd: Reader, memories: Activity, fuel: nat)
      ensures this.journal == journal && this.rd == rd && this.memories == memories && this.fuel == fuel
    {
      this.journal, this.rd, this.memories, this.fuel := journal, rd, memories, fuel;
    }

    // Whether the next call succeeds.
    method Call() returns (ok: bool)
      modifies this`fuel
      ensures ok <==> old(fuel) > 0
      ensures fuel == if ok then old(fuel) - 1 else 0
    {
      ok := fuel > 0;
      if ok { fuel := fuel - 1; }
    }

    // One batch-archive call; it is refused when one of the ids is unknown.
    method BatchArchive(ids: seq<string>) returns (out: Outcome)
      modifies this`memories, this`fuel
      ensures out == if old(fuel) == 0 then OutOfCalls else if SetOf(ids) <= old(memories).Keys then Done else Refused
      ensures memories == if out == Done then Off(old(memories), SetOf(ids)) else old(memories)
      ensures fuel == if old(fuel) > 0 then old(fuel) - 1 else 0
    {
      var ok := Call();
      if !ok { return OutOfCalls; }
      if exists id <- ids :: id !in memories { return Refused; }
      memories := Off(memories, SetOf(ids));
      out := Done;
    }

    // archive_live_memory_sources, chunk by chunk.
    method ArchiveMemories(ids: seq<string>) returns (out: Outcome)
      modifies this`memories, this`fuel
      ensures exists k: nat | k <= |ids| && (k == |ids| || k % ChunkSize == 0) ::
        memories == Off(old(memories), SetOf(ids[..k])) && (out == Done <==> k == |ids|)
      ensures out == OutOfCalls ==> fuel == 0 && old(fuel) < (|ids| + 499) / 500
      ensures out == Done ==> old(fuel) == fuel + (|ids| + 499) / 500
      ensures out == Refused ==> !(SetOf(ids) <= old(memories).Keys)
      ensures fuel <= old(fuel) <= fuel + |ids|
    {
      var start: nat := 0;
      NoneOff(memories);
      assert ids[..0] == [];
      while start < |ids|
        invariant start <= |ids| && (start == |ids| || start % ChunkSize == 0)
        invariant memories == Off(old(memories), SetOf(ids[..start]))
        invariant old(fuel) == fuel + (start + 499) / 500
      {
        var next := Min(start + ChunkSize, |ids|);
        SliceWithin(ids, start, next);
        out := BatchArchive(ids[start..next]);
        if out != Done { return; }
        OffAgain(old(memories), ids, start, next);
        start := next;
      }
      out := Done;
    }

    // apply_crystal, for a plan.  Wherever it stops, no source is archived without its crystal, unless
    // the pass was to archive the crystal itself.
    method Apply(p: Plan) returns (out: Outcome)
      requires BaseIsActive(memories, p) && Named(journal.rows)
      modifies this, journal
      ensures Reached(old(memories), old(journal.rows), p, rd, memories, journal.rows)
      ensures CrystalOf(p) !in MemoryIds(p) ==>
        CrystalFirst(old(memories), old(journal.rows), p, memories, journal.rows)
      ensures out == Done ==>
        memories == AfterPass(old(memories), p) && journal.rows == RowsAfter(old(journal.rows), p, rd)
      ensures out == Done ==> !Refuses(old(journal.rows), p.batch, rd)
      ensures out == Done ==> Finished(old(memories), old(journal.rows), p, rd, memories, journal.rows)
      ensures out == Refused ==> journal.rows == old(journal.rows)
      ensures out == Refused && SetOf(MemoryIds(p)) + RedundantIds(p) <= old(memories).Keys ==>
        Refuses(journal.rows, p.batch, rd) && memories == AfterPass(old(memories), p)
      ensures out == OutOfCalls ==> fuel == 0 && old(fuel) < CallsOf(p)
      ensures out == Done || (out == Refused && SetOf(MemoryIds(p)) + RedundantIds(p) <= old(memories).Keys) ==>
        old(fuel) == fuel + CallsOf(p)
      ensures fuel <= old(fuel) <= fuel + OtherCalls + |MemoryIds(p)|
    {
      ghost var m, rows := memories, journal.rows;
      out := TakeSteps(p);
      if out == Done { AfterPassIsFinished(m, rows, p, rd); }
      if CrystalOf(p) !in MemoryIds(p) { CrystalComesFirst(m, rows, p, rd, memories, journal.rows); }
    }

    method TakeSteps(p: Plan) returns (out: Outcome)
      requires Named(journal.rows)
      modifies this, journal
      ensures Reached(old(memories), old(journal.rows), p, rd, memories, journal.rows)
      ensures out == Done ==>
        memories == AfterPass(old(memories), p) && journal.rows == RowsAfter(old(journal.rows), p, rd)
      ensures out == Done ==> !Refuses(old(journal.rows), p.batch, rd)
      ensures out == Refused ==> journal.rows == old(journal.rows)
      ensures out == Refused && SetOf(MemoryIds(p)) + RedundantIds(p) <= old(memories).Keys ==>
        Refuses(journal.rows, p.batch, rd) && memories == AfterPass(old(memories), p)
      ensures out == OutOfCalls ==> fuel == 0 && old(fuel) < CallsOf(p)
      ensures out == Done || (out == Refused && SetOf(MemoryIds(p)) + RedundantIds(p) <= old(memories).Keys) ==>
        old(fuel) == fuel + CallsOf(p)
      ensures fuel <= old(fuel) <= fuel + OtherCalls + |MemoryIds(p)|
    {
      ghost var m, rows := memories, journal.rows;
      out := WriteCrystal(p);
      if out != Done { return; }
      NoneOff(memories);
      assert PartlyArchived(m, p, memories);
      var ok := Call();
      if !ok { return OutOfCalls; }
      out := ArchiveMemories(MemoryIds(p));
      PrefixIsPart(m, p, memories, out);
      if out != Done { return; }
      ok := Call();
      if !ok { return OutOfCalls; }
      ok := MarkArchived(journal, p.batch, rd);
      if !ok { out := Refused; }
    }

    // Everything before the sources: the hub, the crystal and its references, the redundant crystals.
    method WriteCrystal(p: Plan) returns (out: Outcome)
      modifies this`memories, this`fuel
      ensures var m := old(memories);
        if out == Done then memories == Condensed(m, p)
        else memories == m || memories == Hubbed(m, p) || memories == Written(m, p)
      ensures out == OutOfCalls ==> fuel == 0 && old(fuel) < 3 + RedundantCalls(p)
      ensures out == OutOfCalls ==>
        memories == match old(fuel) case 0 => old(memories) case 1 => Hubbed(old(memories), p)
                    case _ => Written(old(memories), p)
      ensures out == Done ==> old(fuel) == fuel + 3 + RedundantCalls(p)
      ensures out == Refused ==> !(RedundantIds(p) <= old(memories).Keys)
      ensures fuel <= old(fuel) <= fuel + 4
    {
      var ok := Call();
      if !ok { return OutOfCalls; }
      if p.hub.Some? { memories := memories[p.hub.value := true]; }
      ok := Call();
      if !ok { return OutOfCalls; }
      if p.choice.None? { memories := memories[p.newCrystal := true]; }
      ok := Call();
      if !ok { return OutOfCalls; }
      out := ArchiveRedundant(p);
    }

    method ArchiveRedundant(p: Plan) returns (out: Outcome)
      modifies this`memories, this`fuel
      ensures memories == if out == Done then Off(old(memories), RedundantIds(p)) else old(memories)
      ensures out == OutOfCalls ==> fuel == 0 && old(fuel) < RedundantCalls(p)
      ensures out == Done ==> old(fuel) == fuel + RedundantCalls(p)
      ensures out == Refused ==> !(RedundantIds(p) <= old(memories).Keys)
      ensures fuel <= old(fuel) <= fuel + 1
    {
      NoneOff(memories);
      out := Done;
      if p.choice.Some? && p.choice.value.redundant != [] {
        var ids := IdsOfHits(p.choice.value.redundant);
        out := BatchArchive(ids);
      }
    }
  }

  method IdsOfHits(hits: seq<CrystalHit>) returns (ids: seq<string>)
    ensures SetOf(ids) == set x <- hits :: x.id
  {
    ids := seq(|hits|, i requires 0 <= i < |hits| => hits[i].id);
    forall x | x in hits ensures x.id in ids {
      var i :| 0 <= i < |hits| && hits[i] == x;
      assert ids[i] == x.id;
    }
    forall id | id in ids ensures exists x <- hits :: x.id == id {
      var i :| 0 <= i < |ids| && ids[i] == id;
      assert hits[i] in hits && hits[i].id == id;
    }
  }

  lemma NoneOff(m: Activity)
    ensures Off(m, {}) == m && SetOf([]) == {}
  {
  }

  lemma OffAgain(m: Activity, ids: seq<string>, i: nat, j: nat)
    requires i <= j <= |ids|
    ensures Off(Off(m, SetOf(ids[..i])), SetOf(ids[i..j])) == Off(m, SetOf(ids[..j]))
  {
    NextSlice(ids, i, j);
  }

  lemma SliceWithin(ids: seq<string>, i: nat, j: nat)
    requires i <= j <= |ids|
    ensures SetOf(ids[i..j]) <= SetOf(ids)
  {
    NextSlice(ids, i, j);
  }

  lemma PrefixIsPart(m: Activity, p: Plan, now: Activity, out: Outcome)
    requires exists k: nat | k <= |MemoryIds(p)| ::
      now == Off(Condensed(m, p), SetOf(MemoryIds(p)[..k])) && (out == Done <==> k == |MemoryIds(p)|)
    ensures PartlyArchived(m, p, now) && (out == Done ==> now == AfterPass(m, p))
  {
    var ids := MemoryIds(p);
    var k: nat :| k <= |ids| && now == Off(Condensed(m, p), SetOf(ids[..k])) && (out == Done <==> k == |ids|);
    assert SetOf(ids[..k]) <= SetOf(ids) by { NextSlice(ids, k, k); }
    assert ids[..|ids|] == ids;
  }

  // ---------------------------------------------------------------- no source without its crystal

  // Wherever a pass stops, with any part of its sources archived.
  lemma CrystalComesFirst(m: Activity, rows: seq<Row>, p: Plan, rd: Reader, mNow: Activity, rowsNow: seq<Row>)
    requires BaseIsActive(m, p) && Reached(m, rows, p, rd, mNow, rowsNow) && CrystalOf(p) !in MemoryIds(p)
    ensures CrystalFirst(m, rows, p, mNow, rowsNow)
  {
    if PartlyArchived(m, p, mNow) {
      var done: set<string> :| done <= SetOf(MemoryIds(p)) && mNow == Off(Condensed(m, p), done);
      assert Active(mNow, CrystalOf(p));
    }
  }

  // A completed pass leaves the crystal active exactly when it was not among the archived sources.
  lemma CrystalActiveIff(m: Activity, p: Plan)
    requires BaseIsActive(m, p)
    ensures Active(AfterPass(m, p), CrystalOf(p)) <==> CrystalOf(p) !in MemoryIds(p)
  {
  }

  // A pass touches no memory but its hub, its crystal, the redundant crystals and its sources.
  lemma PassTouchesOnly(m: Activity, rows: seq<Row>, p: Plan, rd: Reader, mNow: Activity, rowsNow: seq<Row>, id: string)
    requires Reached(m, rows, p, rd, mNow, rowsNow)
    ensures p.hub != Some(id) && id != CrystalOf(p) && id !in RedundantIds(p) && id !in MemoryIds(p) ==>
      (id in m <==> id in mNow) && (id in m ==> m[id] == mNow[id])
  {
  }

  // ---------------------------------------------------------------- the records of a batch

  function RecordKey(r: Record): (Kind, string) { (r.kind, KeyText(r)) }

  function ItemKey(x: Item): (Kind, string) { (x.kind, if x.kind == MemoryItem then Strip(x.id) else x.eventId) }

  // The memories as the worker lists them: each once, under the id it is stored by, and active.
  ghost predicate ListsMemories(items: seq<Item>, m: Activity) {
    && (forall x <- items :: x.kind == MemoryItem && Active(m, Strip(x.id)))
    && DistinctBy(items, ItemKey)
  }

  lemma {:induction false} LatestAreItems(items: seq<Item>, x: Item)
    requires x in Latest(items)
    ensures x in items
  {
    var firsts := FirstVersions(items);
    LastVersionsAt(firsts, items);
    var i :| 0 <= i < |firsts| && Latest(items)[i] == x;
    FirstVersionsWithin(items, firsts[i]);
    VersionWithin(items, firsts[i]);
  }

  lemma {:induction false} FirstVersionsWithin(items: seq<Item>, x: Item)
    requires x in FirstVersions(items)
    ensures x in items
  {
    var init, last := items[..|items| - 1], items[|items| - 1];
    assert items == init + [last];
    if x in FirstVersions(init) { FirstVersionsWithin(init, x); }
  }

  lemma {:induction false} VersionWithin(items: seq<Item>, x: Item)
    ensures LastVersion(items, x) == x || LastVersion(items, x) in items
  {
    if items != [] {
      VersionWithin(items[..|items| - 1], x);
      assert items == items[..|items| - 1] + [items[|items| - 1]];
    }
  }

  lemma {:induction false} LoadedItem(rows: seq<Row>, x: Item)
    requires x in Loaded(rows) && Named(rows)
    ensures x.kind == ObservationItem && x.eventId != ""
  {
    var init, last := rows[..|rows| - 1], rows[|rows| - 1];
    assert rows == init + [last] && last in rows && forall row <- init :: row in rows;
    if x in Loaded(init) { LoadedItem(init, x); } else { assert Strip("") == ""; }
  }

  // Everything a pass harvests is told apart by its key.
  lemma SourcesAreDistinct(items: seq<Item>, rows: seq<Row>, m: Activity)
    requires ListsMemories(items, m) && Named(rows)
    ensures DistinctBy(Sources(items, Loaded(rows)), ItemKey)
  {
    var latest, all := Latest(Loaded(rows)), Sources(items, Loaded(rows));
    LatestIsExact(Loaded(rows));
    forall i | 0 <= i < |latest| ensures latest[i].kind == ObservationItem && latest[i].eventId != "" {
      assert latest[i] in latest;
      LatestAreItems(Loaded(rows), latest[i]);
      LoadedItem(rows, latest[i]);
    }
    forall i, j | 0 <= i < j < |all| ensures ItemKey(all[i]) != ItemKey(all[j]) {
      if j < |items| {
        assert ItemKey(items[i]) != ItemKey(items[j]);
      } else if i < |items| {
        assert items[i] in items;
      } else {
        assert !SameEvent(latest[i - |items|], latest[j - |items|]);
      }
    }
  }

  lemma {:induction false} ItemsOfAt(records: seq<Record>)
    ensures |ItemsOf(records)| == |records|
    ensures forall i | 0 <= i < |records| :: ItemsOf(records)[i] == records[i].item
  {
    if records != [] { ItemsOfAt(records[..|records| - 1]); }
  }

  lemma {:induction false} FilterDistinctBy<T, K(!new)>(s: seq<T>, key: T -> K, keep: T -> bool)
    requires DistinctBy(s, key)
    ensures DistinctBy(Filter(s, keep), key) && KeySet(Filter(s, keep), key) <= KeySet(s, key)
  {
    if s != [] {
      var init, last := s[..|s| - 1], s[|s| - 1];
      FilterDistinctBy(init, key, keep);
      if keep(last) {
        KeySetIff(init, key, key(last));
        DistinctSnoc(Filter(init, keep), last, key);
        KeySetSnoc(Filter(init, keep), last, key);
      }
    }
  }

  lemma KeptAreDistinct(items: seq<Item>, rd: Reader)
    requires DistinctBy(items, ItemKey)
    ensures DistinctBy(AbsorbAll(items, rd).kept, RecordKey)
  {
    var kept := AbsorbAll(items, rd).kept;
    ItemsAreAccounted(items, rd);
    FilterDistinctBy(items, ItemKey, AcceptedBy(rd));
    ItemsOfAt(kept);
    forall i | 0 <= i < |kept| ensures RecordKey(kept[i]) == ItemKey(ItemsOf(kept)[i]) {
      KeptAreRecords(items, rd, kept[i]);
    }
    forall i, j | 0 <= i < j < |kept| ensures RecordKey(kept[i]) != RecordKey(kept[j]) {
      assert ItemKey(ItemsOf(kept)[i]) != ItemKey(ItemsOf(kept)[j]);
    }
  }

  lemma PermutationKeys(a: seq<Record>, b: seq<Record>)
    requires multiset(a) == multiset(b) && |a| == |b| && DistinctBy(a, RecordKey)
    ensures DistinctBy(b, RecordKey) && KeySet(b, RecordKey) == KeySet(a, RecordKey)
  {
    forall r | r in a ensures r in b { assert r in multiset(a) && r in multiset(b); }
    forall r | r in b ensures r in a { assert r in multiset(a) && r in multiset(b); }
    KeySetWithin(a, b, RecordKey);
    KeySetWithin(b, a, RecordKey);
    assert KeySet(a, RecordKey) == KeySet(b, RecordKey);
    KeySetSize(a, RecordKey);
    KeySetSize(b, RecordKey);
  }

  lemma PrefixDistinct(a: seq<Record>, b: seq<Record>)
    requires a <= b && DistinctBy(b, RecordKey)
    ensures DistinctBy(a, RecordKey)
  {
    forall i, j | 0 <= i < j < |a| ensures RecordKey(a[i]) != RecordKey(a[j]) {
      assert a[i] == b[i] && a[j] == b[j];
    }
  }

  // The archive records of a batch are told apart by the memory's id or the observation's event id.
  lemma ArchiveIsDistinct(items: seq<Item>, rows: seq<Row>, m: Activity, o: Options, rd: Reader,
                          fingerprint: Record -> string, b: Batch)
    requires ListsMemories(items, m) && Named(rows) && IsBatchOf(b, items, rows, o, rd, fingerprint)
    ensures DistinctBy(b.archive, RecordKey)
  {
    var kept, records := AbsorbAll(Sources(items, Loaded(rows)), rd).kept, Harvested(items, Loaded(rows), rd);
    SourcesAreDistinct(items, rows, m);
    KeptAreDistinct(Sources(items, Loaded(rows)), rd);
    SortedIsPermutation(kept, ByScore(rd));
    PermutationKeys(kept, records);
    BatchIsBest(records, o, rd, fingerprint);
    ArchiveIsLarge(records, o, rd, fingerprint);
    var g, key := Grouping(o.project, b.kind, rd), Key(b.project, b.topic);
    FilterDistinctBy(records, RecordKey, r => IsIn(g, key, r));
    PermutationKeys(Group(records, g, key), b.pool);
    PrefixDistinct(b.archive, b.pool);
  }

  lemma {:induction false} TextsOfIff(records: seq<Record>, kind: Kind, text: string)
    ensures text in TextsOf(records, kind) <==> exists r <- records :: r.kind == kind && KeyText(r) == text
  {
    if records != [] {
      TextsOfIff(records[..|records| - 1], kind, text);
      assert records == records[..|records| - 1] + [records[|records| - 1]];
    }
  }

  lemma {:induction false} TextsOfSizes(records: seq<Record>)
    ensures |TextsOf(records, MemoryItem)| + |TextsOf(records, ObservationItem)| == |records|
  {
    if records != [] { TextsOfSizes(records[..|records| - 1]); }
  }

  lemma {:induction false} TextsOfDistinct(records: seq<Record>, kind: Kind)
    requires DistinctBy(records, RecordKey)
    ensures NoRepeats(TextsOf(records, kind))
  {
    if records != [] {
      var init, last := records[..|records| - 1], records[|records| - 1];
      TextsOfDistinct(init, kind);
      TextsOfIff(init, kind, KeyText(last));
      forall r | r in init ensures RecordKey(r) != RecordKey(last) {
        var i :| 0 <= i < |init| && init[i] == r;
        assert RecordKey(records[i]) != RecordKey(records[|records| - 1]);
      }
    }
  }

  lemma AfterPassIsFinished(m: Activity, rows: seq<Row>, p: Plan, rd: Reader)
    requires Named(rows) && !Refuses(rows, p.batch, rd)
    ensures Finished(m, rows, p, rd, AfterPass(m, p), RowsAfter(rows, p, rd))
  {
    MemoriesAreFinished(m, p);
    ArchivedAt(rows, Wanted(IdsFor(rows, p.batch, rd)));
    forall i | 0 <= i < |rows|
      ensures Found(rows[i], Wanted(IdsFor(rows, p.batch, rd))) <==> Takes(rows[i], p.batch, rd)
    {
      ArchivesTaken(rows, p.batch, rd, i);
    }
  }

  lemma MemoriesAreFinished(m: Activity, p: Plan)
    ensures MemoriesFinished(m, p, AfterPass(m, p))
  {
    forall id
      ensures id in SetOf(MemoryIds(p)) <==> exists r <- p.batch.archive :: r.kind == MemoryItem && r.id == id
    {
      ArchivesMemory(p, id);
    }
  }

  lemma ArchivesMemory(p: Plan, id: string)
    ensures id in SetOf(MemoryIds(p)) <==> exists r <- p.batch.archive :: r.kind == MemoryItem && r.id == id
  {
    TextsOfIff(p.batch.archive, MemoryItem, id);
  }

  // ---------------------------------------------------------------- the measure of the loop

  function ActiveIds(m: Activity): set<string> { set id <- m | m[id] }

  function ActiveCount(m: Activity, rows: seq<Row>): nat { |ActiveIds(m)| + ActiveRows(rows) }

  lemma {:induction false} SetOfSize(ids: seq<string>)
    requires NoRepeats(ids)
    ensures |SetOf(ids)| == |ids|
  {
    if ids != [] {
      var init, last := ids[..|ids| - 1], ids[|ids| - 1];
      SetOfSize(init);
      assert ids == init + [last];
      assert SetOf(ids) == SetOf(init) + {last};
      assert last !in init;
    }
  }

  lemma Subtract(big: set<string>, small: set<string>)
    requires small <= big
    ensures |big - small| == |big| - |small|
  {
    assert big == (big - small) + small;
  }

  lemma WithTwo(a: set<string>, b: set<string>, x: string, y: string)
    requires a <= b + {x, y}
    ensures |a| <= |b| + 2
  {
    assert a - {x, y} <= b;
    SizeOfSubset(a - {x, y}, b);
    assert a <= (a - {x, y}) + {x, y};
    SizeOfSubset(a, (a - {x, y}) + {x, y});
    assert |{x, y}| <= 2;
  }

  lemma SizeOfSubset(a: set<string>, b: set<string>)
    requires a <= b
    ensures |a| <= |b|
  {
    Subtract(b, a);
  }

  // The journal finds the row a record was read from: in the lower tiers by the id of some archived record,
  // its own or another; in the two highest the project has to be written plainly.
  predicate FindsRowOf(b: Batch, r: Record) {
    if IsHigh(b.tier) then HasLiteralProject(r.item) else exists q <- b.archive :: Means(q, Row(r.item, ActiveRow))
  }

  // What can be checked of a batch before its pass: that the journal finds its observations.
  predicate FindsItsRows(b: Batch) { forall r <- b.archive | r.kind == ObservationItem :: FindsRowOf(b, r) }

  // An archived record of an observation is that of an active row; the batch takes that row exactly when
  // the journal finds it.
  lemma RecordHasRow(items: seq<Item>, rows: seq<Row>, m: Activity, o: Options, rd: Reader,
                     fingerprint: Record -> string, b: Batch, r: Record) returns (i: nat)
    requires ListsMemories(items, m) && Named(rows) && IsBatchOf(b, items, rows, o, rd, fingerprint)
    requires r in b.archive && r.kind == ObservationItem
    ensures i < |rows| && rows[i] == Row(r.item, ActiveRow) && (Takes(rows[i], b, rd) <==> FindsRowOf(b, r))
  {
    ArchivedRecord(items, rows, o, rd, fingerprint, b, r);
    LatestAreItemsOf(items, rows, m, r.item);
    i := LoadedRow(rows, r.item);
    if IsHigh(b.tier) {
      ArchiveIsLarge(Harvested(items, Loaded(rows), rd), o, rd, fingerprint);
      assert r in b.pool;
      PooledColumn(items, rows, o, rd, fingerprint, b, r.item);
      SelectorAgrees(items, rows, o, rd, fingerprint, b, rows[i]);
    }
  }

  // A record whose event id is its id is found.
  lemma OwnIdFinds(items: seq<Item>, rows: seq<Row>, o: Options, rd: Reader, fingerprint: Record -> string,
                   b: Batch, r: Record)
    requires IsBatchOf(b, items, rows, o, rd, fingerprint) && r in b.archive && r.kind == ObservationItem
    requires EventName(r.item) == Strip(r.item.id)
    ensures Means(r, Row(r.item, ActiveRow))
  {
    ArchivedRecord(items, rows, o, rd, fingerprint, b, r);
    FindsOwn(Row(r.item, ActiveRow));
  }

  lemma LatestAreItemsOf(items: seq<Item>, rows: seq<Row>, m: Activity, x: Item)
    requires ListsMemories(items, m) && x in Sources(items, Loaded(rows)) && x.kind == ObservationItem
    ensures x in Loaded(rows)
  {
    if x in Latest(Loaded(rows)) { LatestAreItems(Loaded(rows), x); }
  }

  // So at least as many active rows leave as the batch archives observations.
  lemma RowsLeave(items: seq<Item>, rows: seq<Row>, m: Activity, o: Options, rd: Reader, fingerprint: Record -> string,
                  b: Batch)
    requires ListsMemories(items, m) && Named(rows) && IsBatchOf(b, items, rows, o, rd, fingerprint) && FindsItsRows(b)
    requires !Refuses(rows, b, rd)
    ensures ActiveRows(Archived(rows, Wanted(IdsFor(rows, b, rd)))) + |TextsOf(b.archive, ObservationItem)|
         <= ActiveRows(rows)
  {
    var wanted, events := Wanted(IdsFor(rows, b, rd)), TextsOf(b.archive, ObservationItem);
    var gone := Filter(rows, Leaves(wanted));
    ArchiveIsDistinct(items, rows, m, o, rd, fingerprint, b);
    TextsOfDistinct(b.archive, ObservationItem);
    SetOfSize(events);
    forall event | event in events ensures event in KeySet(gone, RawEventId) {
      EventLeaves(items, rows, m, o, rd, fingerprint, b, event);
    }
    SizeOfSubset(SetOf(events), KeySet(gone, RawEventId));
    KeySetSize(gone, RawEventId);
    ArchivedCount(rows, wanted);
  }

  lemma EventLeaves(items: seq<Item>, rows: seq<Row>, m: Activity, o: Options, rd: Reader,
                    fingerprint: Record -> string, b: Batch, event: string)
    requires ListsMemories(items, m) && Named(rows) && IsBatchOf(b, items, rows, o, rd, fingerprint) && FindsItsRows(b)
    requires !Refuses(rows, b, rd) && event in TextsOf(b.archive, ObservationItem)
    ensures event in KeySet(Filter(rows, Leaves(Wanted(IdsFor(rows, b, rd)))), RawEventId)
  {
    var leaves := Leaves(Wanted(IdsFor(rows, b, rd)));
    TextsOfIff(b.archive, ObservationItem, event);
    var r :| r in b.archive && r.kind == ObservationItem && KeyText(r) == event;
    var i := RecordHasRow(items, rows, m, o, rd, fingerprint, b, r);
    ArchivesTaken(rows, b, rd, i);
    KeyOfKept(rows, leaves, i);
  }

  lemma KeyOfKept(rows: seq<Row>, keep: Row -> bool, i: nat)
    requires i < |rows| && keep(rows[i])
    ensures rows[i].item.eventId in KeySet(Filter(rows, keep), RawEventId)
  {
    var kept := Filter(rows, keep);
    FilterKeeps(rows, keep, rows[i]);
    var k :| 0 <= k < |kept| && kept[k] == rows[i];
    KeySetIff(kept, RawEventId, rows[i].item.eventId);
  }

  lemma MemoriesLeave(items: seq<Item>, rows: seq<Row>, m: Activity, o: Options, rd: Reader,
                      fingerprint: Record -> string, p: Plan)
    requires ListsMemories(items, m) && Named(rows) && IsBatchOf(p.batch, items, rows, o, rd, fingerprint)
    ensures |ActiveIds(AfterPass(m, p))| + |MemoryIds(p)| <= |ActiveIds(m)| + 2
    ensures SetOf(MemoryIds(p)) <= ActiveIds(m) && |MemoryIds(p)| <= |ActiveIds(m)|
  {
    var ids := MemoryIds(p);
    ArchiveIsDistinct(items, rows, m, o, rd, fingerprint, p.batch);
    TextsOfDistinct(p.batch.archive, MemoryItem);
    SetOfSize(ids);
    forall id | id in ids ensures Active(m, id) {
      TextsOfIff(p.batch.archive, MemoryItem, id);
      var r :| r in p.batch.archive && r.kind == MemoryItem && KeyText(r) == id;
      ArchivedRecord(items, rows, o, rd, fingerprint, p.batch, r);
      SourceIsListed(items, rows, r.item);
    }
    var hub := if p.hub.Some? then p.hub.value else CrystalOf(p);
    var crystal := if p.choice.None? then p.newCrystal else hub;
    Subtract(ActiveIds(m), SetOf(ids));
    assert ActiveIds(AfterPass(m, p)) <= (ActiveIds(m) - SetOf(ids)) + {hub, crystal};
    WithTwo(ActiveIds(AfterPass(m, p)), ActiveIds(m) - SetOf(ids), hub, crystal);
  }

  lemma SourceIsListed(items: seq<Item>, rows: seq<Row>, x: Item)
    requires x in Sources(items, Loaded(rows)) && x.kind == MemoryItem && Named(rows)
    ensures x in items
  {
    if x in Latest(Loaded(rows)) {
      LatestAreItems(Loaded(rows), x);
      LoadedItem(rows, x);
    }
  }

  // A completed pass whose journal finds its observations takes the archived records away, ten at least,
  // and adds at most a hub and a crystal.
  lemma CompletedPassShrinks(items: seq<Item>, rows: seq<Row>, m: Activity, o: Options, rd: Reader,
                             fingerprint: Record -> string, p: Plan)
    requires ListsMemories(items, m) && Named(rows) && IsBatchOf(p.batch, items, rows, o, rd, fingerprint)
    requires FindsItsRows(p.batch) && !Refuses(rows, p.batch, rd)
    ensures |p.batch.archive| >= 10
    ensures ActiveCount(AfterPass(m, p), RowsAfter(rows, p, rd)) + |p.batch.archive| <= ActiveCount(m, rows) + 2
  {
    RowsLeave(items, rows, m, o, rd, fingerprint, p.batch);
    MemoriesLeave(items, rows, m, o, rd, fingerprint, p);
    TextsOfSizes(p.batch.archive);
    ArchiveIsLarge(Harvested(items, Loaded(rows), rd), o, rd, fingerprint);
  }

  // ---------------------------------------------------------------- the loop

  /** What a pass writes besides archiving: the hub, the extended crystal, the id of a new one. */
  datatype Writing = Writing(hub: Option<string>, choice: Option<Choice>, newCrystal: string)

  function PlanFor(w: Writing, b: Batch): (p: Plan)
    ensures CrystalOf(p) == match w.choice case Some(c) => c.base.id case None => w.newCrystal
  {
    Plan(w.hub, w.choice, w.newCrystal, b)
  }

  ghost predicate SoundWriting(m: Activity, w: Writing, b: Batch) {
    BaseIsActive(m, PlanFor(w, b)) && RedundantIds(PlanFor(w, b)) <= m.Keys
  }

  predicate PlainItem(x: Item) { EventName(x) == Strip(x.id) && HasLiteralProject(x) }

  // Active rows whose event id is their id and whose project is written plainly.
  predicate PlainRows(rows: seq<Row>) { forall row <- rows | row.life == ActiveRow :: PlainItem(row.item) }

  lemma ArchivedPlain(rows: seq<Row>, wanted: set<string>)
    requires PlainRows(rows)
    ensures PlainRows(Archived(rows, wanted))
  {
    ArchivedAt(rows, wanted);
    var after := Archived(rows, wanted);
    forall row | row in after && row.life == ActiveRow ensures PlainItem(row.item) {
      var i :| 0 <= i < |after| && after[i] == row;
      assert rows[i] in rows;
    }
  }

  lemma PlainRowsAreFound(items: seq<Item>, rows: seq<Row>, m: Activity, o: Options, rd: Reader,
                          fingerprint: Record -> string, b: Batch)
    requires ListsMemories(items, m) && PlainRows(rows) && IsBatchOf(b, items, rows, o, rd, fingerprint)
    ensures FindsItsRows(b)
  {
    forall r | r in b.archive && r.kind == ObservationItem ensures FindsRowOf(b, r) {
      ArchivedRecord(items, rows, o, rd, fingerprint, b, r);
      LatestAreItemsOf(items, rows, m, r.item);
      var i := LoadedRow(rows, r.item);
      assert rows[i] in rows;
      OwnIdFinds(items, rows, o, rd, fingerprint, b, r);
    }
  }

  /** Why the loop stopped: nothing to condense, no more calls that succeed, or a batch the journal refuses. */
  datatype Stop = NothingToDo | Interrupted | RefusedBatch(batch: Batch)

  // The loop over passes on stores nobody else writes.  Each pass that completes leaves at least eight
  // active items fewer, and costs at most two calls for each of them, so with enough calls the loop ends
  // when there is nothing left to condense, or at a batch the journal refuses.
  method RunPasses(stores: Stores, listing: Activity -> seq<Item>, write: (Activity, Batch) -> Writing, o: Options,
                   fingerprint: Record -> string)
    returns (passes: nat, stop: Stop)
    requires Bounded(o) && Named(stores.journal.rows) && PlainRows(stores.journal.rows)
    requires forall m :: ListsMemories(listing(m), m)
    requires forall m, b :: SoundWriting(m, write(m, b), b)
    modifies stores, stores.journal
    ensures 8 * passes + ActiveCount(stores.memories, stores.journal.rows)
         <= ActiveCount(old(stores.memories), old(stores.journal.rows)) + if stop.NothingToDo? then 0 else 2
    ensures stop.NothingToDo? ==>
      BestBatch(Harvested(listing(stores.memories), Loaded(stores.journal.rows), stores.rd), o, stores.rd, fingerprint)
      == None
    ensures stop.NothingToDo? && passes == 0 ==>
      stores.memories == old(stores.memories) && stores.journal.rows == old(stores.journal.rows)
    ensures stop.RefusedBatch? ==> Refuses(stores.journal.rows, stop.batch, stores.rd)
    ensures stop.Interrupted? ==>
      old(stores.fuel) <= 2 * ActiveCount(old(stores.memories), old(stores.journal.rows)) + OtherCalls
  {
    passes := 0;
    ghost var count := ActiveCount(stores.memories, stores.journal.rows);
    while true
      invariant Named(stores.journal.rows) && PlainRows(stores.journal.rows)
      invariant passes == 0 ==>
        stores.memories == old(stores.memories) && stores.journal.rows == old(stores.journal.rows)
      invariant 8 * passes + ActiveCount(stores.memories, stores.journal.rows) <= count
      invariant old(stores.fuel) + 2 * ActiveCount(stores.memories, stores.journal.rows) <= stores.fuel + 2 * count
      decreases ActiveCount(stores.memories, stores.journal.rows)
    {
      var records, stats := HarvestRecords(listing(stores.memories), Loaded(stores.journal.rows), stores.rd);
      var batch := SelectBatch(records, o, stores.rd, fingerprint);
      if batch == None { return passes, NothingToDo; }
      var w := write(stores.memories, batch.value);
      var out := RunPass(stores, listing(stores.memories), w, o, fingerprint, batch.value);
      if out == OutOfCalls { return passes, Interrupted; }
      if out == Refused { return passes, RefusedBatch(batch.value); }
      passes := passes + 1;
    }
  }

  // One pass of the loop.
  method RunPass(stores: Stores, ghost items: seq<Item>, w: Writing, o: Options, fingerprint: Record -> string,
                 b: Batch)
    returns (out: Outcome)
    requires Named(stores.journal.rows) && PlainRows(stores.journal.rows)
    requires ListsMemories(items, stores.memories) && SoundWriting(stores.memories, w, b)
    requires IsBatchOf(b, items, stores.journal.rows, o, stores.rd, fingerprint)
    modifies stores, stores.journal
    ensures Named(stores.journal.rows) && PlainRows(stores.journal.rows)
    ensures var was, now := ActiveCount(old(stores.memories), old(stores.journal.rows)),
        ActiveCount(stores.memories, stores.journal.rows);
      && (out == Done ==> now + 8 <= was && old(stores.fuel) + 2 * now <= stores.fuel + 2 * was)
      && (out == OutOfCalls ==> stores.fuel == 0 && old(stores.fuel) <= OtherCalls + was)
      && now <= was + 2
    ensures out == Refused ==> Refuses(stores.journal.rows, b, stores.rd)
  {
    ghost var m, rows, p := stores.memories, stores.journal.rows, PlanFor(w, b);
    PlainRowsAreFound(items, rows, m, o, stores.rd, fingerprint, b);
    MemoriesLeave(items, rows, m, o, stores.rd, fingerprint, p);
    TextsOfSizes(b.archive);
    out := stores.Apply(PlanFor(w, b));
    ArchivedPlain(rows, Wanted(IdsFor(rows, b, stores.rd)));
    ArchivedNamed(rows, Wanted(IdsFor(rows, b, stores.rd)));
    NeverMore(m, rows, p, stores.rd, stores.memories, stores.journal.rows);
    if out == Done { CompletedPassShrinks(items, rows, m, o, stores.rd, fingerprint, p); }
  }

  // Wherever a pass stops, it has added at most a hub and a crystal.
  lemma NeverMore(m: Activity, rows: seq<Row>, p: Plan, rd: Reader, mNow: Activity, rowsNow: seq<Row>)
    requires Reached(m, rows, p, rd, mNow, rowsNow)
    ensures ActiveCount(mNow, rowsNow) <= ActiveCount(m, rows) + 2
  {
    var hub := if p.hub.Some? then p.hub.value else CrystalOf(p);
    var crystal := if p.choice.None? then p.newCrystal else hub;
    assert ActiveIds(mNow) <= ActiveIds(m) + {hub, crystal};
    WithTwo(ActiveIds(mNow), ActiveIds(m), hub, crystal);
    ArchivedCount(rows, Wanted(IdsFor(rows, p.batch, rd)));
  }
}
