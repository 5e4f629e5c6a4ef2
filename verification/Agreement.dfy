/** How a pass marks observations as archived (scripts/bhm_crystallize_worker_execution.py:18-110): by
    the ids of the archive records in the lower tiers, and in the two highest by running a selector over
    the journal again. */
module Agreement {
  import opened Text
  import opened Seqs
  import opened Payloads
  import opened Sorting
  import opened Harvest
  import opened Selection
  import opened Journal

  // raw_item_matches_batch_selector
  predicate Matches(item: Item, b: Batch, rd: Reader) {
    && IsAccepted(item, rd)
    && ProjectOf(item) == b.project
    && (b.kind == Mixed || b.topic == "mixed" || rd.topic(item) == b.topic)
  }

  // A row the selector takes: the store gives the active rows of the project, by the column.
  predicate Selects(row: Row, b: Batch, rd: Reader) {
    row.life == ActiveRow && Column(row.item) == b.project && Matches(row.item, b, rd)
  }

  function Selected(rows: seq<Row>, b: Batch, rd: Reader): seq<Row> { Filter(rows, row => Selects(row, b, rd)) }

  predicate IsHigh(tier: Tier) { tier == Singularity || tier == BigBang }

  function RawEventId(row: Row): string { row.item.eventId }

  function SelectorIds(rows: seq<Row>, b: Batch, rd: Reader): set<string> { KeySet(Selected(rows, b, rd), RawEventId) }

  function ObservationIds(archive: seq<Record>): set<string> {
    set r <- archive | r.kind == ObservationItem :: r.id
  }

  predicate HasObservations(archive: seq<Record>) { exists r <- archive :: r.kind == ObservationItem }

  // The ids handed to the store; without an observation to archive it is not asked.
  function IdsFor(rows: seq<Row>, b: Batch, rd: Reader): set<string> {
    if !HasObservations(b.archive) then {}
    else if IsHigh(b.tier) then SelectorIds(rows, b, rd)
    else ObservationIds(b.archive)
  }

  // The row is meant by an archived record: its id finds it.
  predicate Means(r: Record, row: Row) { r.kind == ObservationItem && Strip(r.id) != "" && Finds(Strip(r.id), row) }

  // The rows a batch archives when the store does not refuse it.
  predicate Takes(row: Row, b: Batch, rd: Reader) {
    HasObservations(b.archive) && if IsHigh(b.tier) then Selects(row, b, rd) else exists r <- b.archive :: Means(r, row)
  }

  // Why the store refuses a batch: one id for two rows.
  ghost predicate Refuses(rows: seq<Row>, b: Batch, rd: Reader) {
    && HasObservations(b.archive)
    && if IsHigh(b.tier) then
         exists i, j | 0 <= i < |rows| && 0 <= j < |rows| && i != j ::
           Selects(rows[i], b, rd) && Finds(EventNameOf(rows[i]), rows[j])
       else
         exists r <- b.archive, i, j | 0 <= i < j < |rows| :: Means(r, rows[i]) && Means(r, rows[j])
  }

  lemma SelectedIds(rows: seq<Row>, b: Batch, rd: Reader, id: string)
    requires Named(rows)
    ensures id in Wanted(SelectorIds(rows, b, rd)) <==>
      exists i | 0 <= i < |rows| :: Selects(rows[i], b, rd) && EventNameOf(rows[i]) == id
  {
    var taken := Selected(rows, b, rd);
    if id in Wanted(SelectorIds(rows, b, rd)) {
      var raw :| raw in SelectorIds(rows, b, rd) && Strip(raw) == id;
      KeySetIff(taken, RawEventId, raw);
      var k :| 0 <= k < |taken| && RawEventId(taken[k]) == raw;
      FilterKeeps(rows, row => Selects(row, b, rd), taken[k]);
      var i :| 0 <= i < |rows| && rows[i] == taken[k];
    }
    if i :| 0 <= i < |rows| && Selects(rows[i], b, rd) && EventNameOf(rows[i]) == id {
      FilterKeeps(rows, row => Selects(row, b, rd), rows[i]);
      var k :| 0 <= k < |taken| && taken[k] == rows[i];
      KeySetIff(taken, RawEventId, RawEventId(rows[i]));
      assert rows[i] in rows;
    }
  }

  lemma RecordIds(b: Batch, id: string)
    ensures id in Wanted(ObservationIds(b.archive)) <==>
      exists r <- b.archive :: r.kind == ObservationItem && Strip(r.id) == id != ""
  {
  }

  lemma HitsApart(rows: seq<Row>, id: string)
    ensures |Hits(rows, id)| > 1 <==> exists i, j | 0 <= i < j < |rows| :: Finds(id, rows[i]) && Finds(id, rows[j])
  {
    if |Hits(rows, id)| > 1 { var i, j := HitsTwice(rows, row => Finds(id, row)); }
    if i, j :| 0 <= i < j < |rows| && Finds(id, rows[i]) && Finds(id, rows[j]) {
      TwoHits(rows, row => Finds(id, row), i, j);
    }
  }

  // The store refuses the call exactly when one of its ids finds two rows.
  lemma RefusedIff(rows: seq<Row>, b: Batch, rd: Reader)
    requires Named(rows)
    ensures Ambiguous(rows, IdsFor(rows, b, rd)) <==> Refuses(rows, b, rd)
  {
    if HasObservations(b.archive) {
      if IsHigh(b.tier) { RefusedHigh(rows, b, rd); } else { RefusedLow(rows, b, rd); }
    }
  }

  lemma RefusedHigh(rows: seq<Row>, b: Batch, rd: Reader)
    requires Named(rows) && HasObservations(b.archive) && IsHigh(b.tier)
    ensures Ambiguous(rows, SelectorIds(rows, b, rd)) <==> Refuses(rows, b, rd)
  {
    if id :| id in Wanted(SelectorIds(rows, b, rd)) && |Hits(rows, id)| > 1 { HighIsRefused(rows, b, rd, id); }
    if i, j :| 0 <= i < |rows| && 0 <= j < |rows| && i != j
               && Selects(rows[i], b, rd) && Finds(EventNameOf(rows[i]), rows[j]) {
      SelectedIds(rows, b, rd, EventNameOf(rows[i]));
      FindsOwn(rows[i]);
      HitsApart(rows, EventNameOf(rows[i]));
    }
  }

  lemma HighIsRefused(rows: seq<Row>, b: Batch, rd: Reader, id: string)
    requires Named(rows) && HasObservations(b.archive) && IsHigh(b.tier)
    requires id in Wanted(SelectorIds(rows, b, rd)) && |Hits(rows, id)| > 1
    ensures Refuses(rows, b, rd)
  {
    SelectedIds(rows, b, rd, id);
    HitsApart(rows, id);
    var own :| 0 <= own < |rows| && Selects(rows[own], b, rd) && EventNameOf(rows[own]) == id;
    var i, j :| 0 <= i < j < |rows| && Finds(id, rows[i]) && Finds(id, rows[j]);
    var other := if i != own then i else j;
    assert Selects(rows[own], b, rd) && Finds(EventNameOf(rows[own]), rows[other]);
  }

  lemma RefusedLow(rows: seq<Row>, b: Batch, rd: Reader)
    requires HasObservations(b.archive) && !IsHigh(b.tier)
    ensures Ambiguous(rows, ObservationIds(b.archive)) <==> Refuses(rows, b, rd)
  {
    if id :| id in Wanted(ObservationIds(b.archive)) && |Hits(rows, id)| > 1 { LowIsRefused(rows, b, rd, id); }
    if r, i, j :| r in b.archive && 0 <= i < j < |rows| && Means(r, rows[i]) && Means(r, rows[j]) {
      RecordIds(b, Strip(r.id));
      HitsApart(rows, Strip(r.id));
    }
  }

  lemma LowIsRefused(rows: seq<Row>, b: Batch, rd: Reader, id: string)
    requires HasObservations(b.archive) && !IsHigh(b.tier)
    requires id in Wanted(ObservationIds(b.archive)) && |Hits(rows, id)| > 1
    ensures Refuses(rows, b, rd)
  {
    RecordIds(b, id);
    HitsApart(rows, id);
    var r :| r in b.archive && r.kind == ObservationItem && Strip(r.id) == id != "";
    var i, j :| 0 <= i < j < |rows| && Finds(id, rows[i]) && Finds(id, rows[j]);
    assert Means(r, rows[i]) && Means(r, rows[j]);
  }

  // A call that is not refused archives the rows the batch takes: in the two highest tiers an id that
  // finds one row only finds the row it was read from.
  lemma ArchivesTaken(rows: seq<Row>, b: Batch, rd: Reader, i: nat)
    requires Named(rows) && i < |rows| && !Refuses(rows, b, rd)
    ensures Found(rows[i], Wanted(IdsFor(rows, b, rd))) <==> Takes(rows[i], b, rd)
  {
    var wanted := Wanted(IdsFor(rows, b, rd));
    if HasObservations(b.archive) && IsHigh(b.tier) {
      FoundHigh(rows, b, rd, i);
    } else if HasObservations(b.archive) {
      if id :| id in wanted && Finds(id, rows[i]) {
        RecordIds(b, id);
        var r :| r in b.archive && r.kind == ObservationItem && Strip(r.id) == id != "";
        assert Means(r, rows[i]);
      }
      if r :| r in b.archive && Means(r, rows[i]) {
        RecordIds(b, Strip(r.id));
        assert Strip(r.id) in wanted;
      }
    }
  }

  lemma FoundHigh(rows: seq<Row>, b: Batch, rd: Reader, i: nat)
    requires Named(rows) && i < |rows| && !Refuses(rows, b, rd) && HasObservations(b.archive) && IsHigh(b.tier)
    ensures Found(rows[i], Wanted(SelectorIds(rows, b, rd))) <==> Selects(rows[i], b, rd)
  {
    var wanted := Wanted(SelectorIds(rows, b, rd));
    if id :| id in wanted && Finds(id, rows[i]) {
      SelectedIds(rows, b, rd, id);
      var own :| 0 <= own < |rows| && Selects(rows[own], b, rd) && EventNameOf(rows[own]) == id;
      assert own == i;
    }
    if Selects(rows[i], b, rd) {
      SelectedIds(rows, b, rd, EventNameOf(rows[i]));
      FindsOwn(rows[i]);
      assert EventNameOf(rows[i]) in wanted;
    }
  }

  // The part of mark_archived_on_disk_async that concerns the journal: all the rows the batch takes, or
  // none when an id finds two rows.
  method MarkArchived(store: ObservationStore, b: Batch, rd: Reader) returns (ok: bool)
    requires Named(store.rows)
    modifies store
    ensures ok <==> !Refuses(old(store.rows), b, rd)
    ensures |store.rows| == |old(store.rows)|
    ensures forall i | 0 <= i < |store.rows| ::
      store.rows[i] == (if ok && Takes(old(store.rows)[i], b, rd) then old(store.rows)[i].(life := ArchivedRow)
                        else old(store.rows)[i])
    ensures ok ==> store.rows == Archived(old(store.rows), Wanted(IdsFor(old(store.rows), b, rd)))
  {
    ghost var before := store.rows;
    var ids := IdsFor(store.rows, b, rd);
    RefusedIff(store.rows, b, rd);
    ok := store.Archive(ids);
    if ok {
      ArchivedAt(before, Wanted(ids));
      forall i | 0 <= i < |before| ensures Found(before[i], Wanted(ids)) <==> Takes(before[i], b, rd) {
        ArchivesTaken(before, b, rd, i);
      }
    }
  }

  // ---------------------------------------------------------------- agreement with the pool

  predicate InPool(item: Item, b: Batch) { exists r <- b.pool :: r.item == item }

  // A batch as a pass selects it from the two stores.
  ghost predicate IsBatchOf(b: Batch, memories: seq<Item>, rows: seq<Row>, o: Options, rd: Reader,
                            fingerprint: Record -> string) {
    && Bounded(o)
    && BestBatch(Harvested(memories, Loaded(rows), rd), o, rd, fingerprint) == Some(b)
  }

  // The topic the grouping asks for; the selector asks for none in a group that is called "mixed".
  predicate OfTopic(item: Item, b: Batch, rd: Reader) { b.kind == Mixed || rd.topic(item) == b.topic }

  predicate CalledMixed(b: Batch) { b.kind == Semantic && b.topic == "mixed" }

  // The project an item is grouped under.
  function ItemProject(item: Item): string { if ProjectOf(item) != "" then ProjectOf(item) else DefaultProject }

  // A harvested item is in the pool exactly when its record belongs to the group.
  lemma PoolIff(memories: seq<Item>, observations: seq<Item>, o: Options, rd: Reader, fingerprint: Record -> string,
                b: Batch, x: Item)
    requires Bounded(o) && BestBatch(Harvested(memories, observations, rd), o, rd, fingerprint) == Some(b)
    requires x in Sources(memories, observations) && IsAccepted(x, rd)
    ensures InPool(x, b) <==> ItemProject(x) == b.project && OfTopic(x, b, rd)
    ensures b.project != ""
  {
    var sources, records := Sources(memories, observations), Harvested(memories, observations, rd);
    var g, key := Grouping(o.project, b.kind, rd), Key(b.project, b.topic);
    BatchIsBest(records, o, rd, fingerprint);
    var own := AcceptedAreKept(sources, rd, x);
    KeptAreRecords(sources, rd, own);
    GroupMembers(records, g, key, b.pool, own);
    InSorted(AbsorbAll(sources, rd).kept, ByScore(rd), own);
    GroupMembers(records, g, key, b.pool, b.pool[0]);
    assert b.pool[0] in b.pool;
    if r :| r in b.pool && r.item == x {
      GroupMembers(records, g, key, b.pool, r);
      InSorted(AbsorbAll(sources, rd).kept, ByScore(rd), r);
      KeptAreRecords(sources, rd, r);
    }
  }

  lemma GroupMembers(records: seq<Record>, g: Grouping, key: Key, pool: seq<Record>, r: Record)
    requires multiset(pool) == multiset(Group(records, g, key))
    ensures r in pool <==> r in records && IsIn(g, key, r)
  {
    assert r in pool <==> r in multiset(pool);
    assert r in Group(records, g, key) <==> r in multiset(Group(records, g, key));
    FilterKeeps(records, q => IsIn(g, key, q), r);
  }

  lemma MatchesInPool(row: Row, b: Batch, rd: Reader)
    requires row.life == ActiveRow && IsAccepted(row.item, rd) && b.project != ""
    requires InPool(row.item, b) <==> ItemProject(row.item) == b.project && OfTopic(row.item, b, rd)
    requires Column(row.item) == ItemProject(row.item) ==> ProjectOf(row.item) == ItemProject(row.item)
    ensures Selects(row, b, rd) && OfTopic(row.item, b, rd) <==> InPool(row.item, b) && Column(row.item) == b.project
  {
  }

  // What the pool holds was harvested and accepted.
  lemma PoolIsAccepted(memories: seq<Item>, observations: seq<Item>, o: Options, rd: Reader,
                       fingerprint: Record -> string, b: Batch, x: Item) returns (r: Record)
    requires Bounded(o) && BestBatch(Harvested(memories, observations, rd), o, rd, fingerprint) == Some(b)
    requires InPool(x, b)
    ensures IsAccepted(x, rd) && r in b.pool && r == RecordOf(x, rd, r.duplicate)
    ensures x in Sources(memories, observations)
  {
    var records := Harvested(memories, observations, rd);
    var kept := AbsorbAll(Sources(memories, observations), rd).kept;
    BatchIsBest(records, o, rd, fingerprint);
    r :| r in b.pool && r.item == x;
    GroupMembers(records, Grouping(o.project, b.kind, rd), Key(b.project, b.topic), b.pool, r);
    InSorted(kept, ByScore(rd), r);
    KeptAreRecords(Sources(memories, observations), rd, r);
  }

  predicate HasLiteralProject(item: Item) {
    item.project == None || (item.project.value != "" && Strip(item.project.value) == item.project.value)
  }

  // The column is the project of the batch key exactly for a missing project, or one that is not
  // blank and has no whitespace around it.
  lemma ColumnIsLiteral(item: Item)
    ensures Column(item) == ItemProject(item) <==> HasLiteralProject(item)
    ensures Column(item) == ItemProject(item) ==> ProjectOf(item) == ItemProject(item)
  {
    DefaultIsStripped();
    if item.project.Some? { StripIsIdempotent(item.project.value); }
  }

  lemma DefaultIsStripped()
    ensures Strip(DefaultProject) == DefaultProject != ""
  {
    StripVisibleEnds(DefaultProject);
  }

  // For all rows and every batch: an active row is in the pool and written with the batch's project exactly
  // when the selector takes it, it is of the batch's topic, and the harvest kept it, that is, no later row
  // of the same event, in whatever project, stands in for it.
  lemma SelectorAgrees(memories: seq<Item>, rows: seq<Row>, o: Options, rd: Reader, fingerprint: Record -> string,
                       b: Batch, row: Row)
    requires IsBatchOf(b, memories, rows, o, rd, fingerprint) && row.life == ActiveRow
    ensures InPool(row.item, b) && Column(row.item) == b.project
       <==> Selects(row, b, rd) && OfTopic(row.item, b, rd) && row.item in Sources(memories, Loaded(rows))
  {
    if InPool(row.item, b) {
      var r := PoolIsAccepted(memories, Loaded(rows), o, rd, fingerprint, b, row.item);
    }
    if row.item in Sources(memories, Loaded(rows)) && IsAccepted(row.item, rd) {
      PoolIff(memories, Loaded(rows), o, rd, fingerprint, b, row.item);
      ColumnIsLiteral(row.item);
      MatchesInPool(row, b, rd);
    }
  }

  // In the pool, the column is the batch's project exactly where the project is written plainly, or not
  // at all.
  lemma PooledColumn(memories: seq<Item>, rows: seq<Row>, o: Options, rd: Reader, fingerprint: Record -> string,
                     b: Batch, x: Item)
    requires IsBatchOf(b, memories, rows, o, rd, fingerprint) && InPool(x, b)
    ensures OfTopic(x, b, rd) && (Column(x) == b.project <==> HasLiteralProject(x))
  {
    var r := PoolIsAccepted(memories, Loaded(rows), o, rd, fingerprint, b, x);
    PoolIff(memories, Loaded(rows), o, rd, fingerprint, b, x);
    ColumnIsLiteral(x);
  }

  // So where the project is written plainly, the selector and the pool agree on every row of the batch's
  // topic that the harvest kept.
  lemma PlainProjectsAgree(memories: seq<Item>, rows: seq<Row>, o: Options, rd: Reader, fingerprint: Record -> string,
                           b: Batch, row: Row)
    requires IsBatchOf(b, memories, rows, o, rd, fingerprint)
    requires row.life == ActiveRow && HasLiteralProject(row.item)
    ensures InPool(row.item, b)
       <==> Selects(row, b, rd) && OfTopic(row.item, b, rd) && row.item in Sources(memories, Loaded(rows))
  {
    SelectorAgrees(memories, rows, o, rd, fingerprint, b, row);
    if InPool(row.item, b) { PooledColumn(memories, rows, o, rd, fingerprint, b, row.item); }
  }

  // ---------------------------------------------------------------- one version of an event

  lemma {:induction false} OnlyVersion(items: seq<Item>, x: Item)
    requires x in items && |Filter(items, y => SameEvent(x, y))| <= 1
    ensures LastVersion(items, x) == x
  {
    var init, last := items[..|items| - 1], items[|items| - 1];
    assert items == init + [last];
    if SameEvent(x, last) {
      NoHits(init, y => SameEvent(x, y));
      assert SameEvent(x, x) && x !in init;
    } else if x in init {
      OnlyVersion(init, x);
    } else {
      NoOtherVersion(init, x);
    }
  }

  lemma OnlyVersionStays(items: seq<Item>, x: Item)
    requires x in items && |Filter(items, y => SameEvent(x, y))| <= 1
    ensures x in Latest(items)
  {
    OnlyVersion(items, x);
    LatestIsExact(items);
  }

  // No more loaded items have an event than rows have its name.
  lemma {:induction false} LoadedVersions(rows: seq<Row>, x: Item)
    ensures |Filter(Loaded(rows), y => SameEvent(x, y))| <= |Filter(rows, row => EventNameOf(row) == EventName(x))|
  {
    if rows != [] {
      var init, last := rows[..|rows| - 1], rows[|rows| - 1];
      LoadedVersions(init, x);
      if last.life != PurgedRow { FilterSnoc(Loaded(init), Materialize(last), y => SameEvent(x, y)); }
    }
  }

  // A selected row that no other row's id can be taken for was kept by the harvest.
  lemma SelectedIsKept(memories: seq<Item>, rows: seq<Row>, b: Batch, rd: Reader, i: nat)
    requires i < |rows| && Selects(rows[i], b, rd) && IsHigh(b.tier) && HasObservations(b.archive)
    requires !Refuses(rows, b, rd)
    ensures rows[i].item in Sources(memories, Loaded(rows))
  {
    var x := rows[i].item;
    var sameName := (row: Row) => EventNameOf(row) == EventName(x);
    forall j | 0 <= j < |rows| && j != i ensures !sameName(rows[j]) { FindsOwn(rows[j]); }
    AtMostOne(rows, sameName, i);
    LoadedVersions(rows, x);
    ActiveRowsAreLoaded(rows, rows[i]);
    OnlyVersionStays(Loaded(rows), x);
  }

  // ---------------------------------------------------------------- what the archive call does

  // What the selector takes beyond the pool: in a group that is called "mixed", every accepted item of the
  // project, whatever its topic.
  predicate Strays(item: Item, b: Batch, rd: Reader) {
    CalledMixed(b) && HasObservations(b.archive) && IsAccepted(item, rd) && ProjectOf(item) == b.project
  }

  // In the two highest tiers, for all rows of a call that is not refused: a row is archived exactly when
  // it was active, is written with the batch's project, and is in the pool or strays into the batch.
  lemma HighTierArchivesPool(memories: seq<Item>, rows: seq<Row>, o: Options, rd: Reader, fingerprint: Record -> string,
                             b: Batch, i: nat)
    requires IsBatchOf(b, memories, rows, o, rd, fingerprint) && IsHigh(b.tier) && !Refuses(rows, b, rd)
    requires i < |rows| && rows[i].item.kind == ObservationItem
    ensures Takes(rows[i], b, rd)
       <==> (&& rows[i].life == ActiveRow && Column(rows[i].item) == b.project
             && (InPool(rows[i].item, b) || Strays(rows[i].item, b, rd)))
  {
    var row := rows[i];
    if row.life == ActiveRow {
      SelectorAgrees(memories, rows, o, rd, fingerprint, b, row);
      if InPool(row.item, b) { PoolHasObservation(memories, rows, o, rd, fingerprint, b, row.item); }
      if Takes(row, b, rd) { SelectedIsKept(memories, rows, b, rd, i); }
    }
  }

  lemma PoolHasObservation(memories: seq<Item>, rows: seq<Row>, o: Options, rd: Reader, fingerprint: Record -> string,
                           b: Batch, x: Item)
    requires IsBatchOf(b, memories, rows, o, rd, fingerprint) && IsHigh(b.tier)
    requires InPool(x, b) && x.kind == ObservationItem
    ensures HasObservations(b.archive)
  {
    var r := PoolIsAccepted(memories, Loaded(rows), o, rd, fingerprint, b, x);
    ArchiveIsLarge(Harvested(memories, Loaded(rows), rd), o, rd, fingerprint);
    assert r in b.archive && r.kind == ObservationItem;
  }

  // The call archives, of the active rows, those of the pool and no others.
  predicate ArchivesItsPool(rows: seq<Row>, b: Batch, rd: Reader) {
    forall row <- rows | row.life == ActiveRow :: Takes(row, b, rd) <==> InPool(row.item, b)
  }

  predicate PlainPool(rows: seq<Row>, b: Batch) {
    forall row <- rows | row.life == ActiveRow && InPool(row.item, b) :: HasLiteralProject(row.item)
  }

  // No accepted row of the batch's project, written plainly, has another topic.
  predicate OneTopic(rows: seq<Row>, b: Batch, rd: Reader) {
    forall row <- rows | row.life == ActiveRow && IsAccepted(row.item, rd) ::
      Column(row.item) == b.project == ProjectOf(row.item) ==> rd.topic(row.item) == b.topic
  }

  // For every batch of the two highest tiers with an observation that is not refused: exactly its pool is
  // archived if and only if every row of the pool has its project written plainly, or not at all, and, if
  // the group is called "mixed", no accepted row of its project has another topic.
  lemma HighTierAgreesIff(memories: seq<Item>, rows: seq<Row>, o: Options, rd: Reader, fingerprint: Record -> string,
                          b: Batch)
    requires IsBatchOf(b, memories, rows, o, rd, fingerprint) && IsHigh(b.tier) && HasObservations(b.archive)
    requires Named(rows) && !Refuses(rows, b, rd)
    ensures ArchivesItsPool(rows, b, rd) <==> PlainPool(rows, b) && (CalledMixed(b) ==> OneTopic(rows, b, rd))
  {
    forall row | row in rows && row.life == ActiveRow
      ensures (Takes(row, b, rd) <==> InPool(row.item, b))
         <==> (&& (InPool(row.item, b) ==> HasLiteralProject(row.item))
               && (Strays(row.item, b, rd) && Column(row.item) == b.project ==> rd.topic(row.item) == b.topic))
    {
      AgreesAt(memories, rows, o, rd, fingerprint, b, row);
    }
  }

  lemma AgreesAt(memories: seq<Item>, rows: seq<Row>, o: Options, rd: Reader, fingerprint: Record -> string,
                 b: Batch, row: Row)
    requires IsBatchOf(b, memories, rows, o, rd, fingerprint) && IsHigh(b.tier) && HasObservations(b.archive)
    requires Named(rows) && !Refuses(rows, b, rd) && row in rows && row.life == ActiveRow
    ensures (Takes(row, b, rd) <==> InPool(row.item, b))
       <==> (&& (InPool(row.item, b) ==> HasLiteralProject(row.item))
             && (Strays(row.item, b, rd) && Column(row.item) == b.project ==> rd.topic(row.item) == b.topic))
  {
    var i :| 0 <= i < |rows| && rows[i] == row;
    HighTierArchivesPool(memories, rows, o, rd, fingerprint, b, i);
    if InPool(row.item, b) { PooledColumn(memories, rows, o, rd, fingerprint, b, row.item); }
    if Takes(row, b, rd) {
      SelectorAgrees(memories, rows, o, rd, fingerprint, b, row);
      SelectedIsKept(memories, rows, b, rd, i);
    }
  }

  // A group that is not called "mixed" archives the rows of its pool whose project is written plainly.
  lemma OtherTopicsAgree(memories: seq<Item>, rows: seq<Row>, o: Options, rd: Reader, fingerprint: Record -> string,
                         b: Batch, i: nat)
    requires IsBatchOf(b, memories, rows, o, rd, fingerprint) && IsHigh(b.tier) && !Refuses(rows, b, rd)
    requires i < |rows| && rows[i].item.kind == ObservationItem && !CalledMixed(b)
    ensures Takes(rows[i], b, rd)
       <==> rows[i].life == ActiveRow && InPool(rows[i].item, b) && HasLiteralProject(rows[i].item)
  {
    HighTierArchivesPool(memories, rows, o, rd, fingerprint, b, i);
    if InPool(rows[i].item, b) { PooledColumn(memories, rows, o, rd, fingerprint, b, rows[i].item); }
  }

  // A group that is called "mixed" archives every row of its project with an accepted item; one with
  // another topic is not in the pool.
  lemma MixedTopicTakesMore(memories: seq<Item>, rows: seq<Row>, o: Options, rd: Reader, fingerprint: Record -> string,
                            b: Batch, i: nat)
    requires IsBatchOf(b, memories, rows, o, rd, fingerprint) && IsHigh(b.tier)
    requires CalledMixed(b) && HasObservations(b.archive)
    requires i < |rows| && rows[i].life == ActiveRow && IsAccepted(rows[i].item, rd)
    requires Column(rows[i].item) == b.project == ProjectOf(rows[i].item)
    ensures Takes(rows[i], b, rd) && (InPool(rows[i].item, b) ==> rd.topic(rows[i].item) == "mixed")
    ensures !Refuses(rows, b, rd) && rd.topic(rows[i].item) == "mixed" ==> InPool(rows[i].item, b)
  {
    SelectorAgrees(memories, rows, o, rd, fingerprint, b, rows[i]);
    if !Refuses(rows, b, rd) { SelectedIsKept(memories, rows, b, rd, i); }
  }

  // In the lower tiers the row an archived record was read from is archived exactly when the id of some
  // archived record finds it; when its event id is the record's own id, that is so.
  lemma LowTierArchivesIff(memories: seq<Item>, rows: seq<Row>, o: Options, rd: Reader, fingerprint: Record -> string,
                           b: Batch, i: nat, r: Record)
    requires IsBatchOf(b, memories, rows, o, rd, fingerprint) && !IsHigh(b.tier) && Named(rows) && !Refuses(rows, b, rd)
    requires i < |rows| && rows[i].life == ActiveRow
    requires r in b.archive && r.kind == ObservationItem && r.item == rows[i].item
    ensures var after := Archived(rows, Wanted(IdsFor(rows, b, rd)));
      |after| == |rows| && (after[i].life == ArchivedRow
        <==> exists q <- b.archive :: q.kind == ObservationItem && Finds(Strip(q.item.id), rows[i]))
    ensures EventNameOf(rows[i]) == Strip(rows[i].item.id) ==>
      exists q <- b.archive :: q.kind == ObservationItem && Finds(Strip(q.item.id), rows[i])
  {
    ArchivedAt(rows, Wanted(IdsFor(rows, b, rd)));
    ArchivesTaken(rows, b, rd, i);
    forall q | q in b.archive && q.kind == ObservationItem
      ensures Means(q, rows[i]) <==> Finds(Strip(q.item.id), rows[i])
    {
      ArchivedRecord(memories, rows, o, rd, fingerprint, b, q);
    }
    FindsOwn(rows[i]);
  }

  // An archived record is made from its item, and its id is not blank.
  lemma ArchivedRecord(memories: seq<Item>, rows: seq<Row>, o: Options, rd: Reader, fingerprint: Record -> string,
                       b: Batch, r: Record)
    requires IsBatchOf(b, memories, rows, o, rd, fingerprint) && r in b.archive
    ensures r == RecordOf(r.item, rd, r.duplicate) && IsAccepted(r.item, rd)
    ensures r.item in Sources(memories, Loaded(rows))
    ensures Strip(r.id) == r.id == Strip(r.item.id) != ""
  {
    var records := Harvested(memories, Loaded(rows), rd);
    var kept := AbsorbAll(Sources(memories, Loaded(rows)), rd).kept;
    ArchiveIsOneGroup(records, o, rd, fingerprint, r);
    InSorted(kept, ByScore(rd), r);
    KeptAreRecords(Sources(memories, Loaded(rows)), rd, r);
    StripIsIdempotent(r.item.id);
  }
}
