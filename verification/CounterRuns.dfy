/** Runs of the crystallizer in which a promise fails, and their opposites: stores, batches and passes that
    show each case of the conditions in `Agreement` and `Pass`. */
module CounterRuns {
  import opened Text
  import opened Seqs
  import opened Payloads
  import opened Sorting
  import opened Harvest
  import opened Selection
  import opened Journal
  import opened Agreement
  import opened Pass

  // ---------------------------------------------------------------- items

  // Every item is accepted; the body is its topic.
  const Plain: Reader :=
    Reader((x: Item) => Accepted, (x: Item) => x.eventId, (x: Item) => 0, (x: Item) => x.body, (x: Item) => "")

  const Usual: Options := Options("", 10, 20)

  // The (k + 1)-fold letter: an id for each k.
  function Letters(k: nat, c: char): (text: string)
    ensures |text| == k + 1 && forall i | 0 <= i < |text| :: text[i] == c
  {
    seq(k + 1, _ => c)
  }

  function Note(event: string, id: string, project: string, body: string): Item {
    Item(ObservationItem, event, id, Some(project), "", "", false, body)
  }

  function Notes(n: nat, letter: char, body: string): (items: seq<Item>)
    ensures |items| == n
    ensures forall k | 0 <= k < n :: items[k] == Note(Letters(k, 'e'), Letters(k, letter), "p", body)
  {
    seq(n, k requires 0 <= k < n => Note(Letters(k, 'e'), Letters(k, letter), "p", body))
  }

  function Fresh(items: seq<Item>): seq<Row> {
    if items == [] then [] else Fresh(items[..|items| - 1]) + [Row(items[|items| - 1], ActiveRow)]
  }

  lemma {:induction false} FreshAt(items: seq<Item>)
    ensures |Fresh(items)| == |items| && Loaded(Fresh(items)) == items
    ensures forall i | 0 <= i < |items| :: Fresh(items)[i] == Row(items[i], ActiveRow)
  {
    if items != [] {
      FreshAt(items[..|items| - 1]);
      assert items == items[..|items| - 1] + [items[|items| - 1]];
      assert Fresh(items)[..|items| - 1] == Fresh(items[..|items| - 1]);
    }
  }

  lemma LettersAreStripped(k: nat, c: char)
    requires !IsSpace(c)
    ensures Strip(Letters(k, c)) == Letters(k, c)
  {
    StripVisibleEnds(Letters(k, c));
  }

  lemma ProjectIsStripped(x: Item)
    requires x.project == Some("p") || x.project == Some("q")
    ensures ProjectOf(x) == ItemProject(x) == Column(x) == x.project.value != ""
  {
    StripVisible("p");
    StripVisible("q");
  }

  // ---------------------------------------------------------------- the size of a group

  predicate Counted(g: Grouping, key: Key, x: Item) {
    && IsAccepted(x, g.rd) && (g.project == "" || ItemProject(x) == g.project)
    && Key(ItemProject(x), if g.kind == Semantic then g.rd.topic(x) else "mixed") == key
  }

  function GroupSize(items: seq<Item>, g: Grouping, key: Key): nat { |Filter(items, x => Counted(g, key, x))| }

  lemma {:induction false} KeptGroupSize(items: seq<Item>, g: Grouping, key: Key)
    ensures |Filter(AbsorbAll(items, g.rd).kept, r => IsIn(g, key, r))| == GroupSize(items, g, key)
  {
    if items != [] {
      var init, last := items[..|items| - 1], items[|items| - 1];
      KeptGroupSize(init, g, key);
      var kept := AbsorbAll(init, g.rd).kept;
      if IsAccepted(last, g.rd) {
        var r := RecordOf(last, g.rd, g.rd.signature(last) in AbsorbAll(init, g.rd).seen);
        FilterSnoc(kept, r, q => IsIn(g, key, q));
      }
    }
  }

  lemma HarvestedGroupSize(memories: seq<Item>, observations: seq<Item>, g: Grouping, key: Key)
    ensures |Group(Harvested(memories, observations, g.rd), g, key)|
         == GroupSize(Sources(memories, observations), g, key)
  {
    KeptGroupSize(Sources(memories, observations), g, key);
    SortedFilterCount(AbsorbAll(Sources(memories, observations), g.rd).kept, ByScore(g.rd), r => IsIn(g, key, r));
  }

  // With one semantic group that is large enough, that group is the batch.
  lemma OneLargeGroup(memories: seq<Item>, observations: seq<Item>, fingerprint: Record -> string, key: Key)
    returns (b: Batch)
    requires GroupSize(Sources(memories, observations), Grouping("", Semantic, Plain), key) >= 10
    requires forall other | other != key ::
      GroupSize(Sources(memories, observations), Grouping("", Semantic, Plain), other) < 10
    ensures BestBatch(Harvested(memories, observations, Plain), Usual, Plain, fingerprint) == Some(b)
    ensures b.project == key.project && b.topic == key.topic && b.kind == Semantic
    ensures |b.pool| == GroupSize(Sources(memories, observations), Grouping("", Semantic, Plain), key)
    ensures b.tier == TierForCount(|b.pool|)
  {
    var records, g := Harvested(memories, observations, Plain), Grouping("", Semantic, Plain);
    forall k ensures |Group(records, g, k)| == GroupSize(Sources(memories, observations), g, k) {
      HarvestedGroupSize(memories, observations, g, k);
    }
    NoLargeGroup(records, g, 10);
    SortedIsPermutation(CandidatesOf(records, g, 10), Heaviest());
    b := BestBatch(records, Usual, Plain, fingerprint).value;
    BatchIsBest(records, Usual, Plain, fingerprint);
  }

  // Items of one project and one topic are one group.
  lemma UniformGroup(items: seq<Item>, key: Key)
    requires |items| >= 10
    requires forall x <- items :: Counted(Grouping("", Semantic, Plain), key, x)
    ensures GroupSize(items, Grouping("", Semantic, Plain), key) == |items|
    ensures forall other | other != key :: GroupSize(items, Grouping("", Semantic, Plain), other) == 0
  {
    var g := Grouping("", Semantic, Plain);
    FilterAll(items, x => Counted(g, key, x));
    forall other | other != key ensures GroupSize(items, g, other) == 0 {
      forall j | 0 <= j < |items| ensures !Counted(g, other, items[j]) { assert items[j] in items; }
      NoneKept(items, x => Counted(g, other, x));
    }
  }

  lemma NotesAreCounted(n: nat, letter: char, body: string)
    requires !IsSpace(letter)
    ensures forall x <- Notes(n, letter, body) :: Counted(Grouping("", Semantic, Plain), Key("p", body), x)
    ensures DistinctEvents(Notes(n, letter, body))
  {
    var items := Notes(n, letter, body);
    forall x | x in items ensures Counted(Grouping("", Semantic, Plain), Key("p", body), x) {
      var k :| 0 <= k < |items| && items[k] == x;
      LettersAreStripped(k, letter);
      ProjectIsStripped(x);
    }
    forall i, j | 0 <= i < j < |items| ensures !SameEvent(items[i], items[j]) {
      assert |items[i].eventId| != |items[j].eventId|;
    }
  }

  lemma NotesAreNamed(n: nat, letter: char, body: string)
    ensures Named(Fresh(Notes(n, letter, body)))
    ensures forall i | 0 <= i < n ::
      |Fresh(Notes(n, letter, body))| == n && EventNameOf(Fresh(Notes(n, letter, body))[i]) == Letters(i, 'e')
  {
    var items := Notes(n, letter, body);
    FreshAt(items);
    forall i | 0 <= i < n ensures EventNameOf(Fresh(items)[i]) == Letters(i, 'e') { LettersAreStripped(i, 'e'); }
    forall row | row in Fresh(items) ensures row.item.kind == ObservationItem && EventNameOf(row) != "" {
      var i :| 0 <= i < n && Fresh(items)[i] == row;
    }
  }

  // ---------------------------------------------------------------- the lower tiers

  // The records are made from the items, and every item has its record.
  ghost predicate RecordsOf(archive: seq<Record>, items: seq<Item>) {
    && (forall r <- archive ::
          r.item in items && r.kind == r.item.kind && r.id == Strip(r.id) == Strip(r.item.id) != "")
    && (forall x <- items :: exists r <- archive :: r.item == x)
  }

  // A batch that archives its whole pool, when every source is of its project and topic.
  lemma WholeGroup(memories: seq<Item>, rows: seq<Row>, o: Options, rd: Reader, fingerprint: Record -> string, b: Batch)
    requires IsBatchOf(b, memories, rows, o, rd, fingerprint) && b.archive == b.pool && b.kind == Semantic
    requires forall x <- Sources(memories, Loaded(rows)) ::
      IsAccepted(x, rd) && ItemProject(x) == b.project && rd.topic(x) == b.topic
    ensures RecordsOf(b.archive, Sources(memories, Loaded(rows)))
  {
    forall r | r in b.archive
      ensures r.item in Sources(memories, Loaded(rows)) && r.kind == r.item.kind
        && r.id == Strip(r.id) == Strip(r.item.id) != ""
    {
      ArchivedRecord(memories, rows, o, rd, fingerprint, b, r);
    }
    forall x | x in Sources(memories, Loaded(rows)) ensures exists r <- b.archive :: r.item == x {
      PoolIff(memories, Loaded(rows), o, rd, fingerprint, b, x);
    }
  }

  // A few sources of one group: the lowest tier shows them all to the model and archives them.
  lemma FewSources(memories: seq<Item>, rows: seq<Row>, fingerprint: Record -> string, key: Key) returns (b: Batch)
    requires 10 <= |Sources(memories, Loaded(rows))| <= 20
    requires forall x <- Sources(memories, Loaded(rows)) :: Counted(Grouping("", Semantic, Plain), key, x)
    ensures IsBatchOf(b, memories, rows, Usual, Plain, fingerprint) && b.tier == Micro
    ensures |b.archive| == |Sources(memories, Loaded(rows))| && RecordsOf(b.archive, Sources(memories, Loaded(rows)))
  {
    UniformGroup(Sources(memories, Loaded(rows)), key);
    b := OneLargeGroup(memories, Loaded(rows), fingerprint, key);
    ArchiveIsLarge(Harvested(memories, Loaded(rows), Plain), Usual, Plain, fingerprint);
    WholePool(Harvested(memories, Loaded(rows), Plain), Usual, Plain, fingerprint);
    WholeGroup(memories, rows, Usual, Plain, fingerprint, b);
  }

  lemma WholePool(records: seq<Record>, o: Options, rd: Reader, fingerprint: Record -> string)
    requires Bounded(o) && o.maxBatch >= 20 && BestBatch(records, o, rd, fingerprint).Some?
    requires |BestBatch(records, o, rd, fingerprint).value.pool| <= 20
    ensures var b := BestBatch(records, o, rd, fingerprint).value; b.archive == b.pool
  {
  }

  lemma FewItems(items: seq<Item>, fingerprint: Record -> string, key: Key) returns (b: Batch)
    requires 10 <= |items| <= 20 && DistinctEvents(items)
    requires forall x <- items :: Counted(Grouping("", Semantic, Plain), key, x)
    ensures IsBatchOf(b, [], Fresh(items), Usual, Plain, fingerprint)
    ensures b.tier == Micro && |b.archive| == |items| && RecordsOf(b.archive, items)
  {
    FreshSources(items);
    b := FewSources([], Fresh(items), fingerprint, key);
  }

  lemma FreshSources(items: seq<Item>)
    requires DistinctEvents(items)
    ensures Sources([], Loaded(Fresh(items))) == items
  {
    FreshAt(items);
    DistinctEventsStay(items);
  }

  lemma EndsApart(id: string, row: Row)
    requires id != "" && id[|id| - 1] == 'i' && EventNameOf(row) != ""
    requires EventNameOf(row)[|EventNameOf(row)| - 1] == 'e'
    ensures !Finds(id, row)
  {
    var pattern := "%" + ([IdSeparator] + id);
    EndsInName(row);
    if Like(pattern, StorageId(row)) { LikeLastLetter(pattern, StorageId(row)); }
  }

  lemma EndsInName(row: Row)
    requires EventNameOf(row) != ""
    ensures StorageId(row) != "" && StorageId(row)[|StorageId(row)| - 1] == EventNameOf(row)[|EventNameOf(row)| - 1]
  {
  }

  // No id of one letter finds a row of the other.
  lemma NoteApart(n: nat, x: Item, i: nat)
    requires x in Notes(n, 'i', "t") && i < n
    ensures |Fresh(Notes(n, 'i', "t"))| == n && !Finds(Strip(x.id), Fresh(Notes(n, 'i', "t"))[i])
  {
    var items := Notes(n, 'i', "t");
    NotesAreNamed(n, 'i', "t");
    var k :| 0 <= k < n && items[k] == x;
    LettersAreStripped(k, 'i');
    EndsApart(Letters(k, 'i'), Fresh(items)[i]);
  }

  // A batch that takes no row leaves the journal as it is.
  lemma Unmoved(rows: seq<Row>, b: Batch)
    requires Named(rows) && !Refuses(rows, b, Plain)
    requires forall row <- rows :: !Takes(row, b, Plain)
    ensures Archived(rows, Wanted(IdsFor(rows, b, Plain))) == rows
  {
    var wanted := Wanted(IdsFor(rows, b, Plain));
    ArchivedAt(rows, wanted);
    forall i | 0 <= i < |rows| ensures Archived(rows, wanted)[i] == rows[i] {
      assert rows[i] in rows;
      ArchivesTaken(rows, b, Plain, i);
    }
  }

  // In the lower tiers a batch takes nothing, and is not refused, when its records mean no row.
  lemma MeansNothing(rows: seq<Row>, b: Batch)
    requires !IsHigh(b.tier)
    requires forall r, row | r in b.archive && row in rows :: !Means(r, row)
    ensures !Refuses(rows, b, Plain) && forall row <- rows :: !Takes(row, b, Plain)
  {
    forall r, i | r in b.archive && 0 <= i < |rows| ensures !Means(r, rows[i]) { assert rows[i] in rows; }
  }

  lemma {:induction false} NoMemories(archive: seq<Record>)
    requires forall r <- archive :: r.kind == ObservationItem
    ensures TextsOf(archive, MemoryItem) == []
  {
    if archive != [] {
      assert archive == archive[..|archive| - 1] + [archive[|archive| - 1]];
      assert archive[|archive| - 1] in archive;
      NoMemories(archive[..|archive| - 1]);
    }
  }

  // A whole pass over observations whose event ids are not their ids: it completes, archives none of
  // them, and leaves one active item more than before.
  method OtherEventIdsRun(n: nat, fingerprint: Record -> string) returns (stores: Stores, out: Outcome, ghost b: Batch)
    requires 10 <= n <= 20
    ensures IsBatchOf(b, [], Fresh(Notes(n, 'i', "t")), Usual, Plain, fingerprint) && |b.archive| == n
    ensures out == Done && stores.journal.rows == Fresh(Notes(n, 'i', "t"))
    ensures ActiveCount(stores.memories, stores.journal.rows) == ActiveCount(map[], Fresh(Notes(n, 'i', "t"))) + 1
  {
    b := OtherIdsBatch(n, fingerprint);
    stores, out := ObservationPass(Fresh(Notes(n, 'i', "t")), fingerprint, b);
  }

  lemma OtherIdsBatch(n: nat, fingerprint: Record -> string) returns (b: Batch)
    requires 10 <= n <= 20
    ensures var rows := Fresh(Notes(n, 'i', "t"));
      && IsBatchOf(b, [], rows, Usual, Plain, fingerprint) && |b.archive| == n && Named(rows)
      && !Refuses(rows, b, Plain) && Archived(rows, Wanted(IdsFor(rows, b, Plain))) == rows
    ensures forall r <- b.archive :: r.kind == ObservationItem
  {
    var items, rows := Notes(n, 'i', "t"), Fresh(Notes(n, 'i', "t"));
    NotesAreCounted(n, 'i', "t");
    NotesAreNamed(n, 'i', "t");
    b := FewItems(items, fingerprint, Key("p", "t"));
    NotesApart(n, b.archive);
    MeansNothing(rows, b);
    Unmoved(rows, b);
  }

  lemma NotesApart(n: nat, archive: seq<Record>)
    requires RecordsOf(archive, Notes(n, 'i', "t"))
    ensures forall r, row | r in archive && row in Fresh(Notes(n, 'i', "t")) :: !Means(r, row)
  {
    var rows := Fresh(Notes(n, 'i', "t"));
    FreshAt(Notes(n, 'i', "t"));
    forall r, row | r in archive && row in rows ensures !Means(r, row) {
      var i :| 0 <= i < |rows| && rows[i] == row;
      NoteApart(n, r.item, i);
    }
  }

  // Harvest and selection, as a pass begins.
  method BatchFor(items: seq<Item>, rows: seq<Row>, fingerprint: Record -> string, ghost b: Batch)
    returns (batch: Batch)
    requires IsBatchOf(b, items, rows, Usual, Plain, fingerprint)
    ensures batch == b
  {
    var records, stats := HarvestRecords(items, Loaded(rows), Plain);
    var selected := SelectBatch(records, Usual, Plain, fingerprint);
    batch := selected.value;
  }

  // The rest of it, with as many calls as it takes: it ends, or is refused for its observations.
  method ApplyPlan(rows: seq<Row>, memories: Activity, plan: Plan) returns (stores: Stores, out: Outcome)
    requires Named(rows) && BaseIsActive(memories, plan)
    requires SetOf(MemoryIds(plan)) + RedundantIds(plan) <= memories.Keys
    ensures out == if Refuses(rows, plan.batch, Plain) then Refused else Done
    ensures stores.memories == AfterPass(memories, plan)
    ensures stores.journal.rows == if out == Done then RowsAfter(rows, plan, Plain) else rows
  {
    var journal := new ObservationStore(rows);
    stores := new Stores(journal, Plain, memories, OtherCalls + |MemoryIds(plan)| + 1);
    out := stores.Apply(plan);
  }

  // A pass over observations: it writes its crystal, and archives the rows it takes unless it is refused.
  method ObservationPass(rows: seq<Row>, fingerprint: Record -> string, ghost b: Batch)
    returns (stores: Stores, out: Outcome)
    requires Named(rows) && IsBatchOf(b, [], rows, Usual, Plain, fingerprint)
    requires forall r <- b.archive :: r.kind == ObservationItem
    ensures out == if Refuses(rows, b, Plain) then Refused else Done
    ensures stores.journal.rows == if out == Done then Archived(rows, Wanted(IdsFor(rows, b, Plain))) else rows
    ensures |ActiveIds(stores.memories)| == |ActiveIds(map[])| + 1
  {
    var batch := BatchFor([], rows, fingerprint, b);
    var plan := PlanFor(Writing(None, None, "n"), batch);
    OnlyTheCrystal(plan);
    stores, out := ApplyPlan(rows, map[], plan);
  }

  lemma OnlyTheCrystal(p: Plan)
    requires p.hub == None && p.choice == None && forall r <- p.batch.archive :: r.kind == ObservationItem
    ensures MemoryIds(p) == [] && |ActiveIds(AfterPass(map[], p))| == |ActiveIds(map[])| + 1
  {
    NoMemories(p.batch.archive);
    assert AfterPass(map[], p) == map[p.newCrystal := true];
    assert ActiveIds(map[p.newCrystal := true]) == {p.newCrystal} && ActiveIds(map[]) == {};
  }

  lemma LettersArePlain(k: nat, c: char)
    requires c != '%' && c != '_' && c != IdSeparator
    ensures IsPlain(Letters(k, c))
  {
  }

  // Rows named by different numbers of one letter never find each other.
  lemma LengthsApart(a: Row, b: Row, k: nat, l: nat)
    requires EventNameOf(a) == Letters(k, 'e') && EventNameOf(b) == Letters(l, 'e') && Column(b.item) == "p" && k != l
    ensures !Finds(EventNameOf(a), b)
  {
    LettersArePlain(k, 'e');
    LettersArePlain(l, 'e');
    FindsPlain(EventNameOf(a), b);
  }

  // A note with its id as event id is found by that id alone.
  lemma OwnNote(n: nat, k: nat, i: nat, body: string)
    requires k < n && i < n
    ensures |Fresh(Notes(n, 'e', body))| == n
    ensures Strip(Notes(n, 'e', body)[k].id) == EventNameOf(Fresh(Notes(n, 'e', body))[k]) == Letters(k, 'e')
    ensures Finds(Letters(k, 'e'), Fresh(Notes(n, 'e', body))[i]) <==> k == i
  {
    var rows := Fresh(Notes(n, 'e', body));
    FreshAt(Notes(n, 'e', body));
    NotesAreNamed(n, 'e', body);
    LettersAreStripped(k, 'e');
    FindsOwn(rows[k]);
    if k != i { LengthsApart(rows[k], rows[i], k, i); }
  }

  // Rows that are found by their own record alone are all taken, and not refused.
  lemma OwnRecords(items: seq<Item>, rows: seq<Row>, b: Batch)
    requires |rows| == |items| && RecordsOf(b.archive, items) && b.tier == Micro && items != []
    requires forall x <- items :: x.kind == ObservationItem
    requires forall k, i | 0 <= k < |items| && 0 <= i < |items| :: Finds(Strip(items[k].id), rows[i]) <==> k == i
    ensures !Refuses(rows, b, Plain) && forall i | 0 <= i < |rows| :: Takes(rows[i], b, Plain)
  {
    forall i | 0 <= i < |rows| ensures exists r <- b.archive :: Means(r, rows[i]) && r.kind == ObservationItem {
      assert items[i] in items;
      var r :| r in b.archive && r.item == items[i];
      assert Means(r, rows[i]);
    }
    forall r, i, j | r in b.archive && 0 <= i < j < |rows| ensures !Means(r, rows[i]) || !Means(r, rows[j]) {
      var k :| 0 <= k < |items| && items[k] == r.item;
      assert !Finds(Strip(items[k].id), rows[i]) || !Finds(Strip(items[k].id), rows[j]);
    }
  }

  // The same observations with their ids as event ids: the batch is not refused, and takes all of them.
  lemma OwnEventIdsRun(n: nat, fingerprint: Record -> string) returns (b: Batch)
    requires 10 <= n <= 20
    ensures var rows := Fresh(Notes(n, 'e', "t"));
      && IsBatchOf(b, [], rows, Usual, Plain, fingerprint) && !IsHigh(b.tier) && !Refuses(rows, b, Plain)
      && forall i | 0 <= i < |rows| :: Takes(rows[i], b, Plain)
  {
    var items, rows := Notes(n, 'e', "t"), Fresh(Notes(n, 'e', "t"));
    NotesAreCounted(n, 'e', "t");
    b := FewItems(items, fingerprint, Key("p", "t"));
    OwnNotes(n, "t");
    OwnRecords(items, rows, b);
  }

  lemma OwnNotes(n: nat, body: string)
    ensures var items, rows := Notes(n, 'e', body), Fresh(Notes(n, 'e', body));
      && |rows| == |items| && (forall x <- items :: x.kind == ObservationItem)
      && forall k, i | 0 <= k < |items| && 0 <= i < |items| :: Finds(Strip(items[k].id), rows[i]) <==> k == i
  {
    var items, rows := Notes(n, 'e', body), Fresh(Notes(n, 'e', body));
    FreshAt(items);
    forall k, i | 0 <= k < n && 0 <= i < n ensures Finds(Strip(items[k].id), rows[i]) <==> k == i {
      OwnNote(n, k, i, body);
    }
  }

  // ---------------------------------------------------------------- the two highest tiers

  // How many more one more item adds to a group.
  lemma GroupSizeSnoc(items: seq<Item>, x: Item, g: Grouping, key: Key)
    ensures GroupSize(items + [x], g, key) == GroupSize(items, g, key) + if Counted(g, key, x) then 1 else 0
  {
    FilterSnoc(items, x, y => Counted(g, key, y));
  }

  // One item that belongs elsewhere does not change which group is the batch.
  lemma GroupAndOne(items: seq<Item>, x: Item, key: Key)
    requires |items| >= 10 && (forall y <- items :: Counted(Grouping("", Semantic, Plain), key, y))
    requires !Counted(Grouping("", Semantic, Plain), key, x)
    ensures GroupSize(items + [x], Grouping("", Semantic, Plain), key) == |items|
    ensures forall other | other != key :: GroupSize(items + [x], Grouping("", Semantic, Plain), other) <= 1
  {
    var g := Grouping("", Semantic, Plain);
    UniformGroup(items, key);
    GroupSizeSnoc(items, x, g, key);
    forall other | other != key ensures GroupSize(items + [x], g, other) <= 1 { GroupSizeSnoc(items, x, g, other); }
  }

  lemma OneMore(n: nat, body: string, x: Item)
    requires x.kind == ObservationItem && x.eventId == Letters(n, 'e') && x.id == Letters(n, 'e')
    ensures DistinctEvents(Notes(n, 'e', body) + [x])
    ensures Named(Fresh(Notes(n, 'e', body) + [x]))
    ensures forall i | 0 <= i <= n ::
      |Fresh(Notes(n, 'e', body) + [x])| == n + 1 && EventNameOf(Fresh(Notes(n, 'e', body) + [x])[i]) == Letters(i, 'e')
  {
    var items := Notes(n, 'e', body) + [x];
    FreshAt(items);
    forall i, j | 0 <= i < j < |items| ensures !SameEvent(items[i], items[j]) {
      assert |items[i].eventId| != |items[j].eventId|;
    }
    forall i | 0 <= i <= n ensures EventNameOf(Fresh(items)[i]) == Letters(i, 'e') { LettersAreStripped(i, 'e'); }
    forall row | row in Fresh(items) ensures row.item.kind == ObservationItem && EventNameOf(row) != "" {
      var i :| 0 <= i <= n && Fresh(items)[i] == row;
    }
  }

  // Rows that are named by different numbers of one letter are never refused.
  lemma LettersNotRefused(rows: seq<Row>, b: Batch)
    requires IsHigh(b.tier)
    requires forall i | 0 <= i < |rows| :: EventNameOf(rows[i]) == Letters(i, 'e') && Column(rows[i].item) == "p"
    ensures !Refuses(rows, b, Plain)
  {
    forall i, j | 0 <= i < |rows| && 0 <= j < |rows| && i != j ensures !Finds(EventNameOf(rows[i]), rows[j]) {
      LengthsApart(rows[i], rows[j], i, j);
    }
  }

  lemma ArchivesObservations(rows: seq<Row>, fingerprint: Record -> string, b: Batch)
    requires IsBatchOf(b, [], rows, Usual, Plain, fingerprint)
    requires forall x <- Sources([], Loaded(rows)) :: x.kind == ObservationItem
    ensures forall r <- b.archive :: r.kind == ObservationItem
  {
    forall r | r in b.archive ensures r.kind == ObservationItem {
      ArchivedRecord([], rows, Usual, Plain, fingerprint, b, r);
    }
  }

  // A batch of the two highest tiers, from sources of which one group is that large.
  lemma HighBatch(rows: seq<Row>, items: seq<Item>, fingerprint: Record -> string, key: Key) returns (b: Batch)
    requires Sources([], Loaded(rows)) == items && forall x <- items :: x.kind == ObservationItem
    requires GroupSize(items, Grouping("", Semantic, Plain), key) >= 1000
    requires forall other | other != key :: GroupSize(items, Grouping("", Semantic, Plain), other) < 10
    ensures IsBatchOf(b, [], rows, Usual, Plain, fingerprint) && IsHigh(b.tier) && HasObservations(b.archive)
    ensures b.project == key.project && b.topic == key.topic && b.kind == Semantic
  {
    b := OneLargeGroup([], Loaded(rows), fingerprint, key);
    ArchiveIsLarge(Harvested([], Loaded(rows), Plain), Usual, Plain, fingerprint);
    assert b.archive[0] in b.archive;
    ArchivedRecord([], rows, Usual, Plain, fingerprint, b, b.archive[0]);
  }

  // A thousand observations of the topic "mixed" and one of another: the batch archives that one too,
  // which is not in its pool.
  lemma MixedTopicRun(fingerprint: Record -> string) returns (rows: seq<Row>, b: Batch)
    ensures IsBatchOf(b, [], rows, Usual, Plain, fingerprint) && !Refuses(rows, b, Plain)
    ensures |rows| == 1001 && Takes(rows[1000], b, Plain) && !InPool(rows[1000].item, b)
  {
    rows, b := MixedAndOne(1000, fingerprint);
  }

  lemma MixedAndOne(n: nat, fingerprint: Record -> string) returns (rows: seq<Row>, b: Batch)
    requires n >= 1000
    ensures IsBatchOf(b, [], rows, Usual, Plain, fingerprint) && !Refuses(rows, b, Plain)
    ensures |rows| == n + 1 && Takes(rows[n], b, Plain) && !InPool(rows[n].item, b)
  {
    var notes, x := Notes(n, 'e', "mixed"), Note(Letters(n, 'e'), Letters(n, 'e'), "p", "o");
    rows := Fresh(notes + [x]);
    OneMore(n, "mixed", x);
    NotesAreCounted(n, 'e', "mixed");
    OtherTopic(n, x);
    b := MixedBatch(notes, x, fingerprint);
    ColumnsAreP(n, x);
    LettersNotRefused(rows, b);
    FreshAt(notes + [x]);
    MixedTopicTakesMore([], rows, Usual, Plain, fingerprint, b, n);
  }

  lemma MixedBatch(notes: seq<Item>, x: Item, fingerprint: Record -> string) returns (b: Batch)
    requires |notes| >= 1000 && DistinctEvents(notes + [x]) && forall y <- notes + [x] :: y.kind == ObservationItem
    requires forall y <- notes :: Counted(Grouping("", Semantic, Plain), Key("p", "mixed"), y)
    requires !Counted(Grouping("", Semantic, Plain), Key("p", "mixed"), x)
    ensures IsBatchOf(b, [], Fresh(notes + [x]), Usual, Plain, fingerprint) && IsHigh(b.tier)
    ensures HasObservations(b.archive) && b.project == "p" && b.topic == "mixed" && b.kind == Semantic
  {
    FreshSources(notes + [x]);
    GroupAndOne(notes, x, Key("p", "mixed"));
    b := HighBatch(Fresh(notes + [x]), notes + [x], fingerprint, Key("p", "mixed"));
  }

  // An accepted note of the same project whose topic is not "mixed".
  lemma OtherTopic(n: nat, x: Item)
    requires x == Note(Letters(n, 'e'), Letters(n, 'e'), "p", "o")
    ensures IsAccepted(x, Plain) && Column(x) == "p" == ProjectOf(x) && Plain.topic(x) != "mixed"
    ensures !Counted(Grouping("", Semantic, Plain), Key("p", "mixed"), x)
  {
    LettersAreStripped(n, 'e');
    ProjectIsStripped(x);
    assert |"mixed"| != |"o"|;
  }

  lemma ColumnsAreP(n: nat, x: Item)
    requires x.project == Some("p")
    ensures var rows := Fresh(Notes(n, 'e', "mixed") + [x]);
      |rows| == n + 1 && forall i | 0 <= i < |rows| :: Column(rows[i].item) == "p"
  {
    FreshAt(Notes(n, 'e', "mixed") + [x]);
  }

  // Items of one project text, with their ids as event ids.
  function NotesOf(n: nat, project: string): (items: seq<Item>)
    ensures |items| == n
    ensures forall k | 0 <= k < n :: items[k] == Note(Letters(k, 'e'), Letters(k, 'e'), project, "t")
  {
    seq(n, k requires 0 <= k < n => Note(Letters(k, 'e'), Letters(k, 'e'), project, "t"))
  }

  // The project such items are grouped under.
  function GroupedUnder(project: string): string { if Strip(project) != "" then Strip(project) else DefaultProject }

  lemma NotesOfAreCounted(n: nat, project: string)
    ensures forall x <- NotesOf(n, project) ::
      Counted(Grouping("", Semantic, Plain), Key(GroupedUnder(project), "t"), x) && x.kind == ObservationItem
  {
    var items := NotesOf(n, project);
    forall x | x in items
      ensures Counted(Grouping("", Semantic, Plain), Key(GroupedUnder(project), "t"), x) && x.kind == ObservationItem
    {
      var k :| 0 <= k < |items| && items[k] == x;
      LettersAreStripped(k, 'e');
    }
  }

  lemma NotesOfAreNamed(n: nat, project: string)
    ensures DistinctEvents(NotesOf(n, project)) && Named(Fresh(NotesOf(n, project)))
  {
    var items := NotesOf(n, project);
    FreshAt(items);
    forall i, j | 0 <= i < j < |items| ensures !SameEvent(items[i], items[j]) {
      assert |items[i].eventId| != |items[j].eventId|;
    }
    forall row | row in Fresh(items) ensures row.item.kind == ObservationItem && EventNameOf(row) != "" {
      var i :| 0 <= i < n && Fresh(items)[i] == row;
      LettersAreStripped(i, 'e');
    }
  }

  // No row is selected when none is written with the batch's project.
  lemma SelectsNothing(rows: seq<Row>, b: Batch)
    requires IsHigh(b.tier) && forall row <- rows :: Column(row.item) != b.project
    ensures !Refuses(rows, b, Plain) && forall row <- rows :: !Takes(row, b, Plain)
  {
    forall i | 0 <= i < |rows| ensures !Selects(rows[i], b, Plain) { assert rows[i] in rows; }
  }

  // A whole pass of the two highest tiers over observations whose project, any text, is blank or has
  // whitespace around it: all of them are in the pool, the pass completes, archives none of them, and
  // leaves one active item more than before.
  method PaddedProjectRun(n: nat, project: string, fingerprint: Record -> string)
    returns (stores: Stores, out: Outcome, ghost b: Batch)
    requires n >= 1000 && (project == "" || Strip(project) != project)
    ensures IsBatchOf(b, [], Fresh(NotesOf(n, project)), Usual, Plain, fingerprint) && IsHigh(b.tier)
    ensures forall x <- NotesOf(n, project) :: InPool(x, b)
    ensures out == Done && stores.journal.rows == Fresh(NotesOf(n, project))
    ensures ActiveCount(stores.memories, stores.journal.rows) == ActiveCount(map[], Fresh(NotesOf(n, project))) + 1
  {
    var rows := Fresh(NotesOf(n, project));
    NotesOfAreNamed(n, project);
    b := PaddedBatch(n, project, fingerprint);
    SelectsNothing(rows, b);
    Unmoved(rows, b);
    stores, out := ObservationPass(rows, fingerprint, b);
  }

  lemma PaddedBatch(n: nat, project: string, fingerprint: Record -> string) returns (b: Batch)
    requires n >= 1000 && (project == "" || Strip(project) != project)
    ensures IsBatchOf(b, [], Fresh(NotesOf(n, project)), Usual, Plain, fingerprint) && IsHigh(b.tier)
    ensures forall x <- NotesOf(n, project) :: InPool(x, b)
    ensures forall row <- Fresh(NotesOf(n, project)) :: Column(row.item) != b.project
    ensures forall r <- b.archive :: r.kind == ObservationItem
  {
    NotesOfAreCounted(n, project);
    NotesOfAreNamed(n, project);
    b := PaddedGroup(NotesOf(n, project), project, fingerprint);
  }

  lemma PaddedGroup(items: seq<Item>, project: string, fingerprint: Record -> string) returns (b: Batch)
    requires |items| >= 1000 && DistinctEvents(items) && (project == "" || Strip(project) != project)
    requires forall x <- items :: x.kind == ObservationItem && x.project == Some(project)
    requires forall x <- items :: Counted(Grouping("", Semantic, Plain), Key(GroupedUnder(project), "t"), x)
    ensures IsBatchOf(b, [], Fresh(items), Usual, Plain, fingerprint) && IsHigh(b.tier)
    ensures forall x <- items :: InPool(x, b)
    ensures forall row <- Fresh(items) :: Column(row.item) != b.project
    ensures forall r <- b.archive :: r.kind == ObservationItem
  {
    FreshSources(items);
    b := GroupBatch(items, Fresh(items), fingerprint, Key(GroupedUnder(project), "t"));
    forall x | x in items ensures InPool(x, b) && Column(x) != b.project {
      CountedUnder(Fresh(items), fingerprint, b, project, x);
    }
    FreshAre(items);
  }

  lemma GroupBatch(items: seq<Item>, rows: seq<Row>, fingerprint: Record -> string, key: Key) returns (b: Batch)
    requires |items| >= 1000 && Sources([], Loaded(rows)) == items && forall x <- items :: x.kind == ObservationItem
    requires forall x <- items :: Counted(Grouping("", Semantic, Plain), key, x)
    ensures IsBatchOf(b, [], rows, Usual, Plain, fingerprint) && IsHigh(b.tier)
    ensures b.project == key.project && b.topic == key.topic && b.kind == Semantic
    ensures forall r <- b.archive :: r.kind == ObservationItem
  {
    UniformGroup(items, key);
    b := HighBatch(rows, items, fingerprint, key);
    ArchivesObservations(rows, fingerprint, b);
  }

  lemma FreshAre(items: seq<Item>)
    ensures forall row <- Fresh(items) :: row.item in items
  {
    FreshAt(items);
    forall row | row in Fresh(items) ensures row.item in items {
      var i :| 0 <= i < |items| && Fresh(items)[i] == row;
    }
  }

  lemma CountedUnder(rows: seq<Row>, fingerprint: Record -> string, b: Batch, project: string, x: Item)
    requires IsBatchOf(b, [], rows, Usual, Plain, fingerprint) && b.kind == Semantic
    requires x in Sources([], Loaded(rows)) && x.project == Some(project) && b.project == GroupedUnder(project)
    requires Counted(Grouping("", Semantic, Plain), Key(b.project, b.topic), x)
    requires project == "" || Strip(project) != project
    ensures InPool(x, b) && Column(x) != b.project
  {
    PoolIff([], Loaded(rows), Usual, Plain, fingerprint, b, x);
    ColumnIsLiteral(x);
  }

  // The last of the rows is a later version of the first one's event, in another project: the harvest
  // keeps it in the place of the first.
  lemma SharedEvent(notes: seq<Item>, z: Item)
    requires notes != [] && DistinctEvents(notes) && SameEvent(notes[0], z)
    ensures Latest(notes + [z]) == [z] + notes[1..]
  {
    AllAreFirst(notes);
    DistinctEventsStay(notes);
    ReplaceVersion(notes, z, 0);
  }

  // Observations of a project, and one of another project under the first one's event id.
  function SharedNotes(n: nat): seq<Item> { Notes(n, 'e', "t") + [Note(Letters(0, 'e'), Letters(0, 'e'), "q", "t")] }

  // More than a thousand such observations, which the journal accepts: a whole pass writes its crystal, is
  // then refused, and leaves every observation active.
  method SharedEventRun(n: nat, fingerprint: Record -> string)
    returns (stores: Stores, out: Outcome, ghost b: Batch)
    requires n >= 1001
    ensures IsBatchOf(b, [], Fresh(SharedNotes(n)), Usual, Plain, fingerprint) && IsHigh(b.tier)
    ensures Selects(Fresh(SharedNotes(n))[0], b, Plain) && !InPool(SharedNotes(n)[0], b)
    ensures out == Refused && stores.journal.rows == Fresh(SharedNotes(n))
    ensures ActiveRows(stores.journal.rows) == n + 1
    ensures ActiveCount(stores.memories, stores.journal.rows) == n + 2
  {
    b := SharedAndMore(n, fingerprint);
    AllActiveRows(SharedNotes(n));
    stores, out := ObservationPass(Fresh(SharedNotes(n)), fingerprint, b);
  }

  lemma {:induction false} AllActiveRows(items: seq<Item>)
    ensures ActiveRows(Fresh(items)) == |items|
  {
    if items != [] {
      AllActiveRows(items[..|items| - 1]);
      FilterSnoc(Fresh(items[..|items| - 1]), Row(items[|items| - 1], ActiveRow), (row: Row) => row.life == ActiveRow);
    }
  }

  lemma SharedAndMore(n: nat, fingerprint: Record -> string) returns (b: Batch)
    requires n >= 1001
    ensures var rows := Fresh(SharedNotes(n));
      && IsBatchOf(b, [], rows, Usual, Plain, fingerprint) && IsHigh(b.tier) && Named(rows) && |rows| == n + 1
      && rows[0] == Row(SharedNotes(n)[0], ActiveRow)
      && Selects(rows[0], b, Plain) && !InPool(SharedNotes(n)[0], b) && Refuses(rows, b, Plain)
    ensures forall r <- b.archive :: r.kind == ObservationItem
  {
    var notes, z := Notes(n, 'e', "t"), Note(Letters(0, 'e'), Letters(0, 'e'), "q", "t");
    var rows := Fresh(notes + [z]);
    NotesAreCounted(n, 'e', "t");
    SharedNamed(n, z);
    SharedNote(n, z);
    b := SharedBatch(notes, z, fingerprint);
    FreshAt(notes + [z]);
    FindsOwn(rows[n]);
    assert Selects(rows[0], b, Plain) && Finds(EventNameOf(rows[0]), rows[n]);
  }

  lemma SharedBatch(notes: seq<Item>, z: Item, fingerprint: Record -> string) returns (b: Batch)
    requires |notes| >= 1001 && DistinctEvents(notes) && SameEvent(notes[0], z) && notes[0] != z
    requires forall y <- notes + [z] :: y.kind == ObservationItem
    requires forall y <- notes :: Counted(Grouping("", Semantic, Plain), Key("p", "t"), y)
    requires !Counted(Grouping("", Semantic, Plain), Key("p", "t"), z)
    ensures IsBatchOf(b, [], Fresh(notes + [z]), Usual, Plain, fingerprint) && IsHigh(b.tier)
    ensures HasObservations(b.archive) && b.project == "p" && b.topic == "t" && b.kind == Semantic
    ensures !InPool(notes[0], b) && forall r <- b.archive :: r.kind == ObservationItem
  {
    var rows, sources := Fresh(notes + [z]), [z] + notes[1..];
    FreshAt(notes + [z]);
    SharedEvent(notes, z);
    SharedGroup(notes, z);
    SameKinds(notes, z);
    b := HighBatch(rows, sources, fingerprint, Key("p", "t"));
    FirstIsGone(notes, z);
    ArchivesObservations(rows, fingerprint, b);
    if InPool(notes[0], b) {
      var r := PoolIsAccepted([], Loaded(rows), Usual, Plain, fingerprint, b, notes[0]);
    }
  }

  lemma SameKinds(notes: seq<Item>, z: Item)
    requires notes != [] && forall y <- notes + [z] :: y.kind == ObservationItem
    ensures forall y <- [z] + notes[1..] :: y.kind == ObservationItem
  {
    forall y | y in [z] + notes[1..] ensures y.kind == ObservationItem { assert y in notes + [z]; }
  }

  // The note of the other project, and the first one, whose event it shares.
  lemma SharedNote(n: nat, z: Item)
    requires n > 0 && z == Note(Letters(0, 'e'), Letters(0, 'e'), "q", "t")
    ensures var first := Notes(n, 'e', "t")[0];
      && SameEvent(first, z) && first != z && EventName(first) == EventName(z)
      && IsAccepted(first, Plain) && Column(first) == "p" == ProjectOf(first) && Plain.topic(first) == "t"
    ensures !Counted(Grouping("", Semantic, Plain), Key("p", "t"), z)
    ensures forall y <- Notes(n, 'e', "t") + [z] :: y.kind == ObservationItem
  {
    LettersAreStripped(0, 'e');
    ProjectIsStripped(z);
    ProjectIsStripped(Notes(n, 'e', "t")[0]);
    assert "p"[0] != "q"[0];
  }

  lemma FirstIsGone(notes: seq<Item>, z: Item)
    requires notes != [] && DistinctEvents(notes) && notes[0].eventId != "" && notes[0] != z
    ensures notes[0] !in [z] + notes[1..]
  {
    forall i | 1 <= i < |notes| ensures notes[i] != notes[0] { assert !SameEvent(notes[0], notes[i]); }
  }

  lemma SharedNamed(n: nat, z: Item)
    requires z.kind == ObservationItem && z.eventId == Letters(0, 'e')
    ensures Named(Fresh(Notes(n, 'e', "t") + [z]))
  {
    var items := Notes(n, 'e', "t") + [z];
    FreshAt(items);
    forall row | row in Fresh(items) ensures row.item.kind == ObservationItem && EventNameOf(row) != "" {
      var i :| 0 <= i <= n && Fresh(items)[i] == row;
      LettersAreStripped(if i < n then i else 0, 'e');
    }
  }

  lemma SharedGroup(notes: seq<Item>, z: Item)
    requires |notes| >= 11 && (forall y <- notes :: Counted(Grouping("", Semantic, Plain), Key("p", "t"), y))
    requires !Counted(Grouping("", Semantic, Plain), Key("p", "t"), z)
    ensures GroupSize([z] + notes[1..], Grouping("", Semantic, Plain), Key("p", "t")) == |notes| - 1
    ensures forall other | other != Key("p", "t") ::
      GroupSize([z] + notes[1..], Grouping("", Semantic, Plain), other) <= 1
  {
    var g, rest := Grouping("", Semantic, Plain), notes[1..];
    assert forall y <- rest :: y in notes;
    UniformGroup(rest, Key("p", "t"));
    forall key ensures GroupSize([z] + rest, g, key) == GroupSize(rest, g, key) + if Counted(g, key, z) then 1 else 0 {
      FilterCons(z, rest, y => Counted(g, key, y));
    }
  }

  lemma {:induction false} FilterCons<T>(x: T, s: seq<T>, keep: T -> bool)
    ensures Filter([x] + s, keep) == (if keep(x) then [x] else []) + Filter(s, keep)
  {
    if s == [] {
      assert [x] + s == [x] && [x][..0] == [];
    } else {
      FilterCons(x, s[..|s| - 1], keep);
      assert ([x] + s)[..|s|] == [x] + s[..|s| - 1];
    }
  }

  // ---------------------------------------------------------------- a base among the sources

  function Memories(n: nat): (items: seq<Item>)
    ensures |items| == n
    ensures forall k | 0 <= k < n ::
      items[k] == Item(MemoryItem, "", Letters(k, 'm'), Some("p"), "", "", false, "t")
  {
    seq(n, k requires 0 <= k < n => Item(MemoryItem, "", Letters(k, 'm'), Some("p"), "", "", false, "t"))
  }

  function AllActive(items: seq<Item>): Activity { map x <- items :: Strip(x.id) := true }

  lemma MemoriesAreListed(n: nat)
    ensures ListsMemories(Memories(n), AllActive(Memories(n)))
    ensures forall x <- Memories(n) :: Counted(Grouping("", Semantic, Plain), Key("p", "t"), x)
  {
    var items := Memories(n);
    forall x | x in items ensures Counted(Grouping("", Semantic, Plain), Key("p", "t"), x) {
      var k :| 0 <= k < n && items[k] == x;
      LettersAreStripped(k, 'm');
      ProjectIsStripped(x);
    }
    forall i, j | 0 <= i < j < n ensures ItemKey(items[i]) != ItemKey(items[j]) {
      LettersAreStripped(i, 'm');
      LettersAreStripped(j, 'm');
      assert |Letters(i, 'm')| != |Letters(j, 'm')|;
    }
  }

  // A whole pass over memories of which one is the crystal it extends, as crystals are harvested like
  // other memories: afterwards no memory is active.
  method BaseAmongSourcesRun(n: nat, fingerprint: Record -> string)
    returns (stores: Stores, out: Outcome, ghost b: Batch)
    requires 10 <= n <= 20
    ensures IsBatchOf(b, Memories(n), [], Usual, Plain, fingerprint) && |b.archive| == n
    ensures out == Done && forall id :: !Active(stores.memories, id)
  {
    var items := Memories(n);
    MemoriesAreListed(n);
    assert Sources(items, Loaded([])) == items;
    b := FewSources(items, [], fingerprint, Key("p", "t"));
    var batch := BatchFor(items, [], fingerprint, b);
    var base := CrystalHit(Strip(items[0].id), 1.0, n, "", true);
    var plan := PlanFor(Writing(None, Choose([base]), ""), batch);
    BaseIsOne(items, fingerprint, plan, base);
    stores, out := ApplyPlan([], AllActive(items), plan);
  }

  lemma BaseIsOne(items: seq<Item>, fingerprint: Record -> string, p: Plan, base: CrystalHit)
    requires items != [] && base == CrystalHit(Strip(items[0].id), 1.0, |items|, "", true)
    requires p.hub == None && p.choice == Choose([base]) && RecordsOf(p.batch.archive, items)
    requires ListsMemories(items, AllActive(items)) && |p.batch.archive| == |items|
    requires IsBatchOf(p.batch, items, [], Usual, Plain, fingerprint)
    ensures BaseIsActive(AllActive(items), p) && RedundantIds(p) == {}
    ensures SetOf(MemoryIds(p)) <= AllActive(items).Keys && |MemoryIds(p)| <= |items|
    ensures forall id :: !Active(AfterPass(AllActive(items), p), id)
    ensures !Refuses([], p.batch, Plain)
  {
    OneHit(base);
    assert items[0] in items;
    AllArchived(items, p.batch.archive);
    NothingLeft(items, p);
    MemoriesLeave(items, [], AllActive(items), Usual, Plain, fingerprint, p);
    TextsOfSizes(p.batch.archive);
  }

  lemma OneHit(base: CrystalHit)
    requires base.score >= MinScore
    ensures Choose([base]) == Some(Choice(base, []))
  {
    assert [base][..0] == [];
    assert Filter([base], (x: CrystalHit) => x.score >= MinScore) == [base];
    assert Sorted([base], BestFirst()) == [base];
    assert [base][1..] == [];
  }

  lemma AllArchived(items: seq<Item>, archive: seq<Record>)
    requires RecordsOf(archive, items) && forall x <- items :: x.kind == MemoryItem
    ensures forall x <- items :: Strip(x.id) in TextsOf(archive, MemoryItem)
  {
    forall x | x in items ensures Strip(x.id) in TextsOf(archive, MemoryItem) {
      var r :| r in archive && r.item == x;
      TextsOfIff(archive, MemoryItem, Strip(x.id));
      assert KeyText(r) == Strip(x.id);
    }
  }

  lemma NothingLeft(items: seq<Item>, p: Plan)
    requires p.hub == None && p.choice.Some? && forall x <- items :: Strip(x.id) in MemoryIds(p)
    ensures forall id :: !Active(AfterPass(AllActive(items), p), id)
  {
  }
}
