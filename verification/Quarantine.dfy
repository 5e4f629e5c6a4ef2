/** The reversible quarantine of reviewed projection duplicates
    (scripts/bhm_quarantine_projection_orphans.py over src/blackholememory/projection_quarantine.py):
    back the points up, copy them to a fresh collection, verify, delete the originals, and restore
    from the manifest.  `Machine.fuel` is the number of effects that still happen before the
    process dies, so a contract that holds for every fuel holds at every crash point.  The API
    writer is offline during the run, as the script demands, so nothing else touches the store. */
module Quarantine {
  import opened Text
  import opened Payloads
  import opened Seqs

  /** A point id: text, a number, or the id derived from a batch, a collection and a point id,
      which is a name-based UUID and so never meets the others. */
  datatype PointId = Uuid(s: string) | Number(n: nat) | Derived(batch: string, collection: string, pointId: string)

  function IdText(id: PointId): string {
    match id
    case Uuid(s) => s
    case Number(n) => Dec(n)
    case Derived(batch, collection, pointId) => batch + ":" + collection + ":" + pointId
  }

  datatype Key = Key(collection: string, id: PointId)

  datatype Point = Point(payload: Payload, vector: seq<real>)

  type Store = map<Key, Point>

  /** A point picked for quarantine, as it was read. */
  datatype Candidate = Candidate(collection: string, id: PointId, point: Point)

  function OriginalKey(c: Candidate): Key { Key(c.collection, c.id) }

  // `str(payload.get("project") or "").strip()`
  function ProjectOf(c: Candidate): string { Strip(TextOrEmpty(Get(c.point.payload, "project"))) }

  // The filter of the delete matches the project field exactly, without stripping it.
  predicate FilterMatches(c: Candidate) { Get(c.point.payload, "project") == Str(ProjectOf(c)) }

  // The point has a project, as printed, that is not blank.
  ghost predicate Scoped(c: Candidate) {
    match Get(c.point.payload, "project")
    case Null => false
    case Str(s) => Strip(s) != ""
    case Other(truthy, text) => truthy && Strip(text) != ""
  }

  // Its project is a text, not blank and without whitespace around it.
  ghost predicate PlainlyScoped(c: Candidate) {
    match Get(c.point.payload, "project") case Str(s) => s != "" && Strip(s) == s case _ => false
  }

  lemma ScopeIff(c: Candidate)
    ensures Scoped(c) <==> ProjectOf(c) != ""
    ensures PlainlyScoped(c) <==> ProjectOf(c) != "" && FilterMatches(c)
  {
    assert Strip("") == "";
    match Get(c.point.payload, "project")
    case Str(s) => StripIsIdempotent(s);
    case _ =>
  }

  // What collect_quarantine_points has checked when it returns: every candidate is in the store
  // as read, and no other point of its collection prints the same id.
  ghost predicate Collected(store: Store, candidates: seq<Candidate>) {
    && (forall c <- candidates :: OriginalKey(c) in store && store[OriginalKey(c)] == c.point)
    && (forall c <- candidates :: c.collection != "" && IdText(c.id) != "" && !c.id.Derived?)
    && (forall c <- candidates, key <- store.Keys ::
          key.collection == c.collection && IdText(key.id) == IdText(c.id) ==> key.id == c.id)
    && NoRepeats(candidates)
  }

  // ---------------------------------------------------------------- copies and backup

  // The marker names the batch, the quarantine collection and where the point comes from.
  function Marker(c: Candidate, batch: string, quarantine: string): Value {
    Other(true, batch + ":" + quarantine + ":" + c.collection + ":" + IdText(c.id))
  }

  function CopyKey(c: Candidate, batch: string, quarantine: string): Key {
    Key(quarantine, Derived(batch, c.collection, IdText(c.id)))
  }

  // The payload gains the quarantine marker; nothing else changes.
  function CopyOf(c: Candidate, batch: string, quarantine: string): Point {
    Point(c.point.payload["_bhm_quarantine" := Marker(c, batch, quarantine)], c.point.vector)
  }

  function CopyAll(store: Store, candidates: seq<Candidate>, batch: string, quarantine: string): Store {
    if candidates == [] then store
    else
      var last := candidates[|candidates| - 1];
      CopyAll(store, candidates[..|candidates| - 1], batch, quarantine)
        [CopyKey(last, batch, quarantine) := CopyOf(last, batch, quarantine)]
  }

  // One row of the backup document: the point id is saved as text.
  datatype SavedPoint = SavedPoint(collection: string, pointId: string, point: Point)

  function Saved(candidates: seq<Candidate>): (r: seq<SavedPoint>)
    ensures |r| == |candidates|
    ensures forall i | 0 <= i < |r| ::
              r[i] == SavedPoint(candidates[i].collection, IdText(candidates[i].id), candidates[i].point)
  {
    seq(|candidates|, i requires 0 <= i < |candidates| =>
      SavedPoint(candidates[i].collection, IdText(candidates[i].id), candidates[i].point))
  }

  // A restored point is put under its textual id.
  function RestoreKey(s: SavedPoint): Key { Key(s.collection, Uuid(s.pointId)) }

  function PutAll(store: Store, saved: seq<SavedPoint>): Store {
    if saved == [] then store
    else
      var last := saved[|saved| - 1];
      PutAll(store, saved[..|saved| - 1])[RestoreKey(last) := last.point]
  }

  // SHA-256 of the backup file, as an injective digest of the document in it.
  datatype FileDigest = FileDigest(of: seq<SavedPoint>)

  datatype Stage = BackupCreated | CopyVerified | OriginalsRemoved | Completed

  const AllStages: seq<Stage> := [BackupCreated, CopyVerified, OriginalsRemoved, Completed]

  datatype Manifest = Manifest(digest: FileDigest, quarantine: string, stage: Stage)

  lemma {:induction false} CopyAllAt(store: Store, candidates: seq<Candidate>, batch: string, quarantine: string,
                                     key: Key)
    ensures key.collection != quarantine ==>
      (key in CopyAll(store, candidates, batch, quarantine) <==> key in store) &&
      (key in store ==> CopyAll(store, candidates, batch, quarantine)[key] == store[key])
    ensures key in CopyAll(store, candidates, batch, quarantine) ==>
      key in store || exists c <- candidates :: key == CopyKey(c, batch, quarantine)
  {
    if candidates != [] {
      var shorter, last := candidates[..|candidates| - 1], candidates[|candidates| - 1];
      CopyAllAt(store, shorter, batch, quarantine, key);
      assert candidates == shorter + [last];
    }
  }

  // Candidates with the same printed id in the same collection are one candidate.
  ghost predicate OneEach(candidates: seq<Candidate>) {
    forall c <- candidates, d <- candidates :: c.collection == d.collection && IdText(c.id) == IdText(d.id) ==> c == d
  }

  lemma CollectedOneEach(store: Store, candidates: seq<Candidate>)
    requires Collected(store, candidates)
    ensures OneEach(candidates)
  {
    forall c <- candidates, d <- candidates | c.collection == d.collection && IdText(c.id) == IdText(d.id)
      ensures c == d
    {
      assert OriginalKey(d) in store.Keys;
    }
  }

  // Every candidate has its verified copy.
  lemma {:induction false} CopyAllHolds(store: Store, candidates: seq<Candidate>, batch: string, quarantine: string,
                                        c: Candidate)
    requires OneEach(candidates) && c in candidates
    ensures CopyKey(c, batch, quarantine) in CopyAll(store, candidates, batch, quarantine)
    ensures IsCopy(CopyAll(store, candidates, batch, quarantine)[CopyKey(c, batch, quarantine)], c, batch, quarantine)
  {
    var shorter, last := candidates[..|candidates| - 1], candidates[|candidates| - 1];
    assert candidates == shorter + [last];
    if c != last {
      CopyAllHolds(store, shorter, batch, quarantine, c);
      assert last in candidates;
    }
  }

  // ---------------------------------------------------------------- what every crash point keeps

  ghost predicate IsOriginal(key: Key, candidates: seq<Candidate>) { exists c <- candidates :: key == OriginalKey(c) }

  // Outside the quarantine collection the store is what it was, less some of the originals.
  ghost predicate OnlyOriginalsMissing(was: Store, now: Store, candidates: seq<Candidate>, quarantine: string) {
    forall key: Key | key.collection != quarantine ::
      && (key in now ==> key in was && now[key] == was[key])
      && (key in was && key !in now ==> IsOriginal(key, candidates))
  }

  ghost predicate InPlace(now: Store, c: Candidate) { OriginalKey(c) in now && now[OriginalKey(c)] == c.point }

  ghost predicate HasCopy(now: Store, c: Candidate, batch: string, quarantine: string) {
    && CopyKey(c, batch, quarantine) in now
    && IsCopy(now[CopyKey(c, batch, quarantine)], c, batch, quarantine)
  }

  // A copy has the vector of its point, all its fields with their values, the marker, and nothing else.
  ghost predicate IsCopy(copy: Point, c: Candidate, batch: string, quarantine: string) {
    && copy.vector == c.point.vector
    && copy.payload.Keys == c.point.payload.Keys + {"_bhm_quarantine"}
    && (forall field <- c.point.payload.Keys | field != "_bhm_quarantine" ::
          copy.payload[field] == c.point.payload[field])
    && copy.payload["_bhm_quarantine"]
       == Other(true, batch + ":" + quarantine + ":" + c.collection + ":" + IdText(c.id))
  }

  // The backup on disk is the one the manifest is bound to, and it holds the candidates.
  ghost predicate BackedUp(backup: Option<seq<SavedPoint>>, manifest: Option<Manifest>, candidates: seq<Candidate>) {
    && backup == Some(Saved(candidates))
    && manifest.Some? && manifest.value.digest == FileDigest(Saved(candidates))
  }

  // No loss: each candidate is in its own collection, or in both the quarantine copy and the
  // backup the manifest is bound to, and by then the manifest says the copy was verified.
  ghost predicate NoLoss(was: Store, now: Store, backup: Option<seq<SavedPoint>>, manifest: Option<Manifest>,
                         candidates: seq<Candidate>, batch: string, quarantine: string)
  {
    && OnlyOriginalsMissing(was, now, candidates, quarantine)
    && forall c <- candidates ::
         || InPlace(now, c)
         || (HasCopy(now, c, batch, quarantine) && BackedUp(backup, manifest, candidates)
             && manifest.value.stage != BackupCreated)
  }

  // ---------------------------------------------------------------- the script

  datatype Status = Done | Raised | Crashed

  datatype Group = Group(collection: string, project: string)

  function GroupOf(c: Candidate): Group { Group(c.collection, ProjectOf(c)) }

  // How many candidates the given groups have.
  ghost function InGroups(candidates: seq<Candidate>, groups: set<Group>): nat {
    |Filter(candidates, (c: Candidate) => GroupOf(c) in groups)|
  }

  lemma NotMore(candidates: seq<Candidate>, groups: set<Group>)
    ensures InGroups(candidates, groups) <= |candidates|
  {
    FilterShortens(candidates, (c: Candidate) => GroupOf(c) in groups);
  }

  lemma OneGroupLess(candidates: seq<Candidate>, groups: set<Group>, g: Group)
    requires g in groups
    ensures InGroups(candidates, groups) == |Members(candidates, g)| + InGroups(candidates, groups - {g})
  {
    FilterSplits(candidates, (c: Candidate) => GroupOf(c) in groups, (c: Candidate) => GroupOf(c) == g,
                 (c: Candidate) => GroupOf(c) in groups - {g});
  }

  function Members(candidates: seq<Candidate>, g: Group): seq<Candidate> {
    Filter(candidates, c => GroupOf(c) == g)
  }

  lemma MembersAre(candidates: seq<Candidate>, g: Group)
    requires NoRepeats(candidates)
    ensures forall c :: c in Members(candidates, g) <==> c in candidates && GroupOf(c) == g
    ensures NoRepeats(Members(candidates, g))
  {
    var inGroup := c => GroupOf(c) == g;
    FilterNoRepeats(candidates, inGroup);
    forall c ensures c in Members(candidates, g) <==> c in candidates && GroupOf(c) == g {
      FilterKeeps(candidates, inGroup, c);
    }
  }

  // Qdrant's delete by filter: the listed ids of the collection whose project field is exactly this text.
  function FilterDelete(store: Store, g: Group, ids: set<PointId>): Store {
    map key | key in store && !(key.collection == g.collection && key.id in ids
                                && Get(store[key].payload, "project") == Str(g.project)) :: store[key]
  }

  function Ids(batch: seq<Candidate>): set<PointId> { set c <- batch :: c.id }

  // How far the removal has got: a candidate still to come is in place, and one that was
  // dealt with is gone exactly when the filter matched it.
  ghost predicate RemovedSoFar(was: Store, now: Store, candidates: seq<Candidate>, gone: set<Candidate>) {
    && (forall key | key in now :: key in was && now[key] == was[key])
    && (forall key | key in was && key !in now :: IsOriginal(key, candidates))
    && (forall c <- candidates :: c !in gone ==> InPlace(now, c))
    && (forall c <- candidates :: c in gone ==> (OriginalKey(c) in now <==> !FilterMatches(c)))
  }

  // A delete of some members takes no other candidate with it.
  lemma DeleteSparesOthers(was: Store, now: Store, candidates: seq<Candidate>, batch: seq<Candidate>, g: Group,
                           c: Candidate)
    requires Collected(was, candidates) && c in candidates && c !in batch
    requires forall d <- batch :: d in candidates && GroupOf(d) == g
    ensures OriginalKey(c) in now <==> OriginalKey(c) in FilterDelete(now, g, Ids(batch))
  {
    CollectedOneEach(was, candidates);
  }

  lemma RemoveBatch(was: Store, now: Store, candidates: seq<Candidate>, gone: set<Candidate>, batch: seq<Candidate>,
                    g: Group, after: set<Candidate>)
    requires Collected(was, candidates) && RemovedSoFar(was, now, candidates, gone)
    requires forall c <- batch :: c in candidates && c !in gone && GroupOf(c) == g
    requires forall c :: c in after <==> c in gone || c in batch
    ensures RemovedSoFar(was, FilterDelete(now, g, Ids(batch)), candidates, after)
  {
    var left := FilterDelete(now, g, Ids(batch));
    forall c <- candidates | c !in batch ensures OriginalKey(c) in now <==> OriginalKey(c) in left {
      DeleteSparesOthers(was, now, candidates, batch, g, c);
    }
    forall c <- batch ensures OriginalKey(c) in left <==> !FilterMatches(c) {
      assert InPlace(now, c) && c.id in Ids(batch);
    }
    forall key | key in was && key !in left ensures IsOriginal(key, candidates) {
      if key in now {
        var d :| d in batch && d.id == key.id;
        assert key == OriginalKey(d);
      }
    }
  }

  // ---------------------------------------------------------------- the phases of the run

  // Nothing has happened to the candidates' collections, which the quarantine is not one of.
  ghost predicate FreshQuarantine(was: Store, candidates: seq<Candidate>, quarantine: string) {
    && Collected(was, candidates)
    && (forall key <- was.Keys :: key.collection != quarantine)
  }

  lemma CopiesLeaveOriginals(was: Store, candidates: seq<Candidate>, k: nat, batch: string, quarantine: string)
    requires FreshQuarantine(was, candidates, quarantine) && k <= |candidates|
    ensures var mid := CopyAll(was, candidates[..k], batch, quarantine);
      && OnlyOriginalsMissing(was, mid, candidates, quarantine)
      && (forall c <- candidates :: InPlace(mid, c))
      && Collected(mid, candidates)
  {
    var mid := CopyAll(was, candidates[..k], batch, quarantine);
    forall key: Key
      ensures key.collection != quarantine ==> (key in mid <==> key in was) && (key in was ==> mid[key] == was[key])
    {
      CopyAllAt(was, candidates[..k], batch, quarantine, key);
    }
  }

  // The verification of the copies cannot fail on a collection that starts empty.
  lemma CopiesVerify(was: Store, candidates: seq<Candidate>, batch: string, quarantine: string)
    requires FreshQuarantine(was, candidates, quarantine)
    ensures var mid := CopyAll(was, candidates, batch, quarantine);
      && CollectionIds(mid, quarantine) == (set c <- candidates :: CopyKey(c, batch, quarantine).id)
      && forall c <- candidates :: HasCopy(mid, c, batch, quarantine)
  {
    var mid := CopyAll(was, candidates, batch, quarantine);
    CollectedOneEach(was, candidates);
    forall c <- candidates ensures HasCopy(mid, c, batch, quarantine) {
      CopyAllHolds(was, candidates, batch, quarantine, c);
    }
    forall id | id in CollectionIds(mid, quarantine)
      ensures exists c <- candidates :: id == CopyKey(c, batch, quarantine).id
    {
      CopyAllAt(was, candidates, batch, quarantine, Key(quarantine, id));
      var c :| c in candidates && Key(quarantine, id) == CopyKey(c, batch, quarantine);
    }
    forall c <- candidates ensures CopyKey(c, batch, quarantine).id in CollectionIds(mid, quarantine) {
      assert CopyKey(c, batch, quarantine) in mid;
    }
  }

  function CollectionIds(store: Store, collection: string): set<PointId> {
    set key <- store.Keys | key.collection == collection :: key.id
  }

  // While originals are being removed, whatever has gone is safe in the copy and the backup.
  lemma RemovalLosesNothing(was: Store, now: Store, candidates: seq<Candidate>, gone: set<Candidate>,
                            batch: string, quarantine: string)
    requires FreshQuarantine(was, candidates, quarantine)
    requires RemovedSoFar(CopyAll(was, candidates, batch, quarantine), now, candidates, gone)
    ensures OnlyOriginalsMissing(was, now, candidates, quarantine)
    ensures forall c <- candidates :: HasCopy(now, c, batch, quarantine)
  {
    var mid := CopyAll(was, candidates, batch, quarantine);
    CopiesVerify(was, candidates, batch, quarantine);
    CopiesLeaveOriginals(was, candidates, |candidates|, batch, quarantine);
    assert candidates[..|candidates|] == candidates;
    forall c <- candidates ensures OriginalKey(c).collection != quarantine {
      assert OriginalKey(c) in was.Keys;
    }
  }

  // The delete takes every candidate: no project field is blank or has whitespace around it.
  ghost predicate AllMatched(candidates: seq<Candidate>) { forall c <- candidates :: PlainlyScoped(c) }

  // When the run gets as far as copying: an empty backup directory and a new collection.
  ghost predicate CanStart(collections: set<string>, backup: Option<seq<SavedPoint>>, manifest: Option<Manifest>,
                           quarantine: string)
  {
    backup == None && manifest == None && quarantine !in collections
  }

  // The stages recorded from the copying on: all of them by a run that is done, that of the verified copy by one
  // that raises, and some of them, in order, by one that dies.
  ghost predicate StagesFollow(before: seq<Stage>, now: seq<Stage>, status: Status) {
    && (status.Done? ==> now == before + [CopyVerified, OriginalsRemoved, Completed])
    && (status.Raised? ==> now == before + [CopyVerified])
    && (status.Crashed? ==>
          || now == before || now == before + [CopyVerified] || now == before + [CopyVerified, OriginalsRemoved])
  }

  lemma StagesInOrder(before: seq<Stage>, now: seq<Stage>, status: Status)
    requires StagesFollow(before + [BackupCreated], now, status)
    ensures exists k: nat | k <= 4 :: now == before + AllStages[..k]
  {
    var k := |now| - |before|;
    assert now == before + AllStages[..k];
  }

  lemma NoStages(before: seq<Stage>)
    ensures before == before + AllStages[..0] && before + [BackupCreated] == before + AllStages[..1]
  {
  }

  // What a run leaves that got as far as copying and did not die: every copy; and the originals are gone
  // exactly where the delete matched them, unless a blank project made it refuse all of them.
  ghost predicate Transferred(now: Store, candidates: seq<Candidate>, batch: string, quarantine: string) {
    forall c <- candidates ::
      && HasCopy(now, c, batch, quarantine)
      && (OriginalKey(c) !in now <==> PlainlyScoped(c) && forall d <- candidates :: Scoped(d))
  }

  /** One run of the script: the vector store, the backup directory and the remaining effects. */
  class Machine {
    var store: Store
    var collections: set<string>
    var backup: Option<seq<SavedPoint>>
    var manifest: Option<Manifest>
    var fuel: nat
    // The stages of the manifests written, in order.
    ghost var stages: seq<Stage>

    constructor (store: Store, collections: set<string>, fuel: nat)
      ensures this.store == store && this.collections == collections && this.fuel == fuel
      ensures backup == None && manifest == None && stages == []
    {
      this.store, this.collections, this.fuel := store, collections, fuel;
      backup, manifest, stages := None, None, [];
    }

    // Whether the process lives to perform its next effect.
    method Alive() returns (alive: bool)
      modifies this`fuel
      ensures alive <==> old(fuel) > 0
      ensures fuel == if alive then old(fuel) - 1 else 0
    {
      alive := fuel > 0;
      if alive { fuel := fuel - 1; }
    }

    // The effects of a run: each happens exactly if the process lives to perform it.
    method SaveBackup(candidates: seq<Candidate>) returns (alive: bool)
      modifies this`backup, this`fuel
      ensures alive <==> old(fuel) > 0
      ensures fuel == if alive then old(fuel) - 1 else 0
      ensures backup == if alive then Some(Saved(candidates)) else old(backup)
    {
      alive := Alive();
      if alive { backup := Some(Saved(candidates)); }
    }

    method SaveManifest(m: Manifest) returns (alive: bool)
      modifies this`manifest, this`stages, this`fuel
      ensures alive <==> old(fuel) > 0
      ensures fuel == if alive then old(fuel) - 1 else 0
      ensures manifest == (if alive then Some(m) else old(manifest))
      ensures stages == if alive then old(stages) + [m.stage] else old(stages)
    {
      alive := Alive();
      if alive { manifest, stages := Some(m), stages + [m.stage]; }
    }

    method CreateCollection(name: string) returns (alive: bool)
      modifies this`collections, this`fuel
      ensures alive <==> old(fuel) > 0
      ensures fuel == if alive then old(fuel) - 1 else 0
      ensures collections == if alive then old(collections) + {name} else old(collections)
    {
      alive := Alive();
      if alive { collections := collections + {name}; }
    }

    method UpsertBatch(items: seq<Candidate>, batch: string, quarantine: string, ghost size: nat)
      returns (alive: bool)
      requires |items| <= size
      modifies this`store, this`fuel
      ensures alive <==> old(fuel) > 0
      ensures fuel == if alive then old(fuel) - 1 else 0
      ensures store == if alive then CopyAll(old(store), items, batch, quarantine) else old(store)
    {
      alive := Alive();
      if alive { store := CopyAll(store, items, batch, quarantine); }
    }

    method PutBack(items: seq<SavedPoint>) returns (alive: bool)
      requires |items| <= 64
      modifies this`store, this`fuel
      ensures alive <==> old(fuel) > 0
      ensures fuel == if alive then old(fuel) - 1 else 0
      ensures store == if alive then PutAll(old(store), items) else old(store)
    {
      alive := Alive();
      if alive { store := PutAll(store, items); }
    }

    // upsert_quarantine_points, batch by batch.
    method UpsertCopies(candidates: seq<Candidate>, batch: string, quarantine: string, size: nat)
      returns (status: Status)
      requires size > 0
      modifies this`store, this`fuel
      ensures exists k: nat | k <= |candidates| ::
        && store == CopyAll(old(store), candidates[..k], batch, quarantine)
        && (status.Done? ==> k == |candidates|)
      ensures !status.Raised? && (status.Crashed? ==> fuel == 0)
      ensures fuel <= old(fuel) <= fuel + |candidates|
    {
      var start := 0;
      while start < |candidates|
        invariant start <= |candidates| && fuel <= old(fuel) <= fuel + start
        invariant store == CopyAll(old(store), candidates[..start], batch, quarantine)
      {
        var end := Min(start + size, |candidates|);
        var alive := UpsertBatch(candidates[start..end], batch, quarantine, size);
        if !alive { return Crashed; }
        CopyAllSplit(old(store), candidates[..start], candidates[start..end], batch, quarantine);
        assert candidates[..start] + candidates[start..end] == candidates[..end];
        start := end;
      }
      assert candidates[..start] == candidates;
      status := Done;
    }

    // delete_original_points: refuse any candidate without a project, then delete group by
    // group in batches, each batch re-read just before.
    method DeleteOriginals(candidates: seq<Candidate>, size: nat) returns (status: Status, ghost gone: set<Candidate>)
      requires size > 0 && Collected(store, candidates)
      modifies this`store, this`fuel
      ensures RemovedSoFar(old(store), store, candidates, gone)
      ensures status.Raised? <==> !status.Crashed? && exists c <- candidates :: !Scoped(c)
      ensures status.Raised? ==> store == old(store)
      ensures status.Done? ==> forall c <- candidates :: c in gone
      ensures status.Crashed? ==> fuel == 0
      ensures fuel <= old(fuel) <= fuel + |candidates|
    {
      gone := {};
      var scoped, pending := GroupByProject(candidates);
      if !scoped { return Raised, gone; }
      NotMore(candidates, pending);
      status, gone := DeleteGroups(candidates, pending, size);
    }

    // All the groups, in any order.
    method DeleteGroups(candidates: seq<Candidate>, groups: set<Group>, size: nat)
      returns (status: Status, ghost gone: set<Candidate>)
      requires size > 0 && Collected(store, candidates) && forall c <- candidates :: GroupOf(c) in groups
      modifies this`store, this`fuel
      ensures RemovedSoFar(old(store), store, candidates, gone)
      ensures !status.Raised? && (status.Done? ==> forall c <- candidates :: c in gone)
      ensures status.Crashed? ==> fuel == 0
      ensures fuel <= old(fuel) <= fuel + InGroups(candidates, groups)
    {
      gone := {};
      var pending := groups;
      while pending != {}
        invariant fuel <= old(fuel) <= fuel + InGroups(candidates, groups) - InGroups(candidates, pending)
        invariant RemovedSoFar(old(store), store, candidates, gone)
        invariant forall c <- candidates :: c in gone <==> GroupOf(c) !in pending
        decreases pending
      {
        var g :| g in pending;
        OneGroupLess(candidates, pending, g);
        var lived;
        lived, gone := DeleteGroup(candidates, g, size, old(store), gone);
        if !lived { return Crashed, gone; }
        pending := pending - {g};
      }
      status := Done;
    }

    // The groups of a delete, unless a candidate has no project.
    method GroupByProject(candidates: seq<Candidate>) returns (scoped: bool, groups: set<Group>)
      ensures scoped <==> forall c <- candidates :: Scoped(c)
      ensures scoped ==> groups == set c <- candidates :: GroupOf(c)
    {
      groups := {};
      for i := 0 to |candidates|
        invariant groups == set c <- candidates[..i] :: GroupOf(c)
        invariant forall c <- candidates[..i] :: Scoped(c)
      {
        TakeNext(candidates, i);
        ScopeIff(candidates[i]);
        if ProjectOf(candidates[i]) == "" { assert candidates[i] in candidates; return false, groups; }
        groups := groups + {GroupOf(candidates[i])};
      }
      assert candidates[..|candidates|] == candidates;
      scoped := true;
    }

    // The members of one (collection, project) group, in batches.
    method DeleteGroup(candidates: seq<Candidate>, g: Group, size: nat, ghost was: Store, ghost before: set<Candidate>)
      returns (lived: bool, ghost gone: set<Candidate>)
      requires size > 0 && Collected(was, candidates) && RemovedSoFar(was, store, candidates, before)
      requires forall c <- candidates :: GroupOf(c) == g ==> c !in before
      modifies this`store, this`fuel
      ensures RemovedSoFar(was, store, candidates, gone)
      ensures lived ==> forall c <- candidates :: c in gone <==> c in before || GroupOf(c) == g
      ensures !lived ==> fuel == 0
      ensures fuel <= old(fuel) <= fuel + |Members(candidates, g)|
    {
      var members := Members(candidates, g);
      MembersAre(candidates, g);
      gone := before;
      var start := 0;
      while start < |members|
        invariant start <= |members| && fuel <= old(fuel) <= fuel + start
        invariant RemovedSoFar(was, store, candidates, gone)
        invariant forall c :: c in gone <==> c in before || c in members[..start]
      {
        var end := Min(start + size, |members|);
        NextSlice(members, start, end);
        lived, gone := DeleteBatch(candidates, g, members[start..end], was, gone);
        if !lived { return; }
        start := end;
      }
      assert members[..start] == members;
      lived := true;
    }

    // One batch: re-read its members, then delete them by project and id.
    method DeleteBatch(candidates: seq<Candidate>, g: Group, batch: seq<Candidate>, ghost was: Store,
                       ghost before: set<Candidate>)
      returns (lived: bool, ghost gone: set<Candidate>)
      requires Collected(was, candidates) && RemovedSoFar(was, store, candidates, before)
      requires forall c <- batch :: c in candidates && c !in before && GroupOf(c) == g
      modifies this`store, this`fuel
      ensures RemovedSoFar(was, store, candidates, gone)
      ensures lived ==> forall c :: c in gone <==> c in before || c in batch
      ensures lived <==> old(fuel) > 0
      ensures !lived ==> gone == before && store == old(store)
      ensures fuel == if lived then old(fuel) - 1 else 0
    {
      gone := before;
      // Present, with the project, payload and vector they were collected with.
      if exists c <- batch :: OriginalKey(c) !in store || store[OriginalKey(c)] != c.point {
        assert false;
      }
      lived := Alive();
      if !lived { return; }
      gone := before + (set c <- batch);
      RemoveBatch(was, store, candidates, before, batch, g, gone);
      store := FilterDelete(store, g, Ids(batch));
    }

    // The apply sequence of the script.
    method RunApply(candidates: seq<Candidate>, batch: string, quarantine: string, size: nat) returns (status: Status)
      requires size > 0 && Collected(store, candidates)
      requires forall key <- store.Keys :: key.collection in collections
      modifies this
      ensures NoLoss(old(store), store, backup, manifest, candidates, batch, quarantine)
      ensures old(backup) == None && old(manifest) == None ==>
        if old(fuel) > 1 then BackedUp(backup, manifest, candidates) else manifest == None
      ensures !CanStart(old(collections), old(backup), old(manifest), quarantine) ==>
        store == old(store) && !status.Done?
      ensures !status.Crashed? && CanStart(old(collections), old(backup), old(manifest), quarantine) ==>
        && (status.Done? <==> AllMatched(candidates)) && Transferred(store, candidates, batch, quarantine)
        && manifest.Some? && manifest.value.stage == (if status.Done? then Completed else CopyVerified)
        && StagesFollow(old(stages) + [BackupCreated], stages, status)
      ensures exists k: nat | k <= 4 :: stages == old(stages) + AllStages[..k]
      ensures old(manifest) == None && manifest.Some? ==> manifest.value.quarantine == quarantine
      ensures collections == old(collections)
              + if CanStart(old(collections), old(backup), old(manifest), quarantine) && old(fuel) > 2
                then {quarantine} else {}
      ensures status.Done? ==> forall c <- candidates :: OriginalKey(c) !in store
      ensures status.Crashed? ==> fuel == 0
      ensures fuel <= old(fuel) <= fuel + 2 * |candidates| + 6
    {
      NoStages(stages);
      if backup.Some? || manifest.Some? { return Raised; }
      var alive := SaveBackup(candidates);
      if !alive { return Crashed; }
      alive := SaveManifest(Manifest(FileDigest(backup.value), quarantine, BackupCreated));
      if !alive { return Crashed; }
      if quarantine in collections { return Raised; }
      alive := CreateCollection(quarantine);
      if !alive { return Crashed; }
      status := Transfer(candidates, batch, quarantine, size);
      StagesInOrder(old(stages), stages, status);
    }

    // From the new collection on: copy, verify, remove, with the manifest following the stages.
    method Transfer(candidates: seq<Candidate>, batch: string, quarantine: string, size: nat) returns (status: Status)
      requires size > 0 && FreshQuarantine(store, candidates, quarantine) && BackedUp(backup, manifest, candidates)
      modifies this`store, this`manifest, this`stages, this`fuel
      ensures NoLoss(old(store), store, backup, manifest, candidates, batch, quarantine)
      ensures BackedUp(backup, manifest, candidates) && manifest.value.quarantine == old(manifest).value.quarantine
      ensures !status.Crashed? ==>
        && (status.Done? <==> AllMatched(candidates)) && Transferred(store, candidates, batch, quarantine)
        && manifest.value.stage == (if status.Done? then Completed else CopyVerified)
      ensures StagesFollow(old(stages), stages, status)
      ensures status.Crashed? ==> fuel == 0
      ensures fuel <= old(fuel) <= fuel + 2 * |candidates| + 3
    {
      ghost var was := store;
      status := CopyAndVerify(candidates, batch, quarantine, size);
      if !status.Done? { return; }
      var alive := SaveManifest(manifest.value.(stage := CopyVerified));
      if !alive { return Crashed; }
      status := RemoveAndConclude(candidates, batch, quarantine, size, was);
    }

    // Behind the verified copy: remove the originals and record that.
    method RemoveAndConclude(candidates: seq<Candidate>, batch: string, quarantine: string, size: nat, ghost was: Store)
      returns (status: Status)
      requires size > 0 && FreshQuarantine(was, candidates, quarantine)
      requires store == CopyAll(was, candidates, batch, quarantine)
      requires BackedUp(backup, manifest, candidates) && manifest.value.stage == CopyVerified
      modifies this`store, this`manifest, this`stages, this`fuel
      ensures NoLoss(was, store, backup, manifest, candidates, batch, quarantine)
      ensures BackedUp(backup, manifest, candidates) && manifest.value.quarantine == old(manifest).value.quarantine
      ensures !status.Crashed? ==>
        && (status.Done? <==> AllMatched(candidates)) && Transferred(store, candidates, batch, quarantine)
        && manifest.value.stage == (if status.Done? then Completed else CopyVerified)
      ensures status.Done? ==> stages == old(stages) + [OriginalsRemoved, Completed]
      ensures status.Raised? ==> stages == old(stages)
      ensures status.Crashed? ==> stages == old(stages) || stages == old(stages) + [OriginalsRemoved]
      ensures status.Crashed? ==> fuel == 0
      ensures fuel <= old(fuel) <= fuel + |candidates| + 2
    {
      status := RemoveOriginals(candidates, batch, quarantine, size, was);
      if !status.Done? { return; }
      var alive := SaveManifest(manifest.value.(stage := OriginalsRemoved));
      if !alive { return Crashed; }
      alive := SaveManifest(manifest.value.(stage := Completed));
      if !alive { return Crashed; }
    }

    // Copy every candidate and compare the ids now in the quarantine collection.
    method CopyAndVerify(candidates: seq<Candidate>, batch: string, quarantine: string, size: nat)
      returns (status: Status)
      requires size > 0 && FreshQuarantine(store, candidates, quarantine)
      modifies this`store, this`fuel
      ensures OnlyOriginalsMissing(old(store), store, candidates, quarantine)
      ensures forall c <- candidates :: InPlace(store, c)
      ensures !status.Raised? && (status.Crashed? ==> fuel == 0)
      ensures fuel <= old(fuel) <= fuel + |candidates|
      ensures status.Done? ==> store == CopyAll(old(store), candidates, batch, quarantine)
    {
      ghost var was := store;
      status := UpsertCopies(candidates, batch, quarantine, size);
      ghost var k: nat :| k <= |candidates| && store == CopyAll(was, candidates[..k], batch, quarantine)
                          && (status.Done? ==> k == |candidates|);
      CopiesLeaveOriginals(was, candidates, k, batch, quarantine);
      if status.Crashed? { return; }
      assert candidates[..|candidates|] == candidates;
      CopiesVerify(was, candidates, batch, quarantine);
      if CollectionIds(store, quarantine) != (set c <- candidates :: CopyKey(c, batch, quarantine).id) {
        status := Raised;
      }
    }

    // Delete the originals and check that none is left.
    method RemoveOriginals(candidates: seq<Candidate>, batch: string, quarantine: string, size: nat, ghost was: Store)
      returns (status: Status)
      requires size > 0 && FreshQuarantine(was, candidates, quarantine)
      requires store == CopyAll(was, candidates, batch, quarantine)
      modifies this`store, this`fuel
      ensures OnlyOriginalsMissing(was, store, candidates, quarantine)
      ensures forall c <- candidates :: HasCopy(store, c, batch, quarantine)
      ensures !status.Crashed? ==>
        (status.Done? <==> AllMatched(candidates)) && Transferred(store, candidates, batch, quarantine)
      ensures status.Crashed? ==> fuel == 0
      ensures fuel <= old(fuel) <= fuel + |candidates|
    {
      assert candidates[..|candidates|] == candidates;
      CopiesLeaveOriginals(was, candidates, |candidates|, batch, quarantine);
      ghost var gone;
      status, gone := DeleteOriginals(candidates, size * 2);
      RemovalLosesNothing(was, store, candidates, gone, batch, quarantine);
      forall c <- candidates ensures PlainlyScoped(c) <==> Scoped(c) && FilterMatches(c) { ScopeIff(c); }
      if !status.Done? { return; }
      if exists c <- candidates :: OriginalKey(c) in store { status := Raised; }
    }
  }

  lemma {:induction false} CopyAllSplit(store: Store, first: seq<Candidate>, more: seq<Candidate>, batch: string,
                                        quarantine: string)
    ensures CopyAll(CopyAll(store, first, batch, quarantine), more, batch, quarantine)
         == CopyAll(store, first + more, batch, quarantine)
  {
    if more == [] {
      assert first + more == first;
    } else {
      CopyAllSplit(store, first, more[..|more| - 1], batch, quarantine);
      assert (first + more)[..|first + more| - 1] == first + more[..|more| - 1];
    }
  }

  // ---------------------------------------------------------------- restore

  // The points in `done` are at their restore keys and everything else is as it was.
  ghost predicate RestoredSoFar(was: Store, now: Store, done: set<SavedPoint>) {
    PutBack(now, done) && Untouched(was, now, done)
  }

  ghost predicate PutBack(now: Store, done: set<SavedPoint>) {
    forall s <- done :: RestoreKey(s) in now && now[RestoreKey(s)] == s.point
  }

  ghost predicate Untouched(was: Store, now: Store, done: set<SavedPoint>) {
    forall key: Key | (forall s <- done :: RestoreKey(s) != key) ::
      (key in now <==> key in was) && (key in was ==> now[key] == was[key])
  }

  ghost predicate OneKeyEach(saved: seq<SavedPoint>) {
    forall s <- saved, t <- saved :: RestoreKey(s) == RestoreKey(t) ==> s == t
  }

  lemma {:induction false} PutAllElsewhere(store: Store, saved: seq<SavedPoint>, key: Key)
    requires forall s <- saved :: RestoreKey(s) != key
    ensures key in PutAll(store, saved) <==> key in store
    ensures key in store ==> PutAll(store, saved)[key] == store[key]
  {
    if saved != [] {
      var shorter, last := saved[..|saved| - 1], saved[|saved| - 1];
      assert last in saved;
      PutAllElsewhere(store, shorter, key);
    }
  }

  lemma {:induction false} PutAllHolds(store: Store, saved: seq<SavedPoint>, s: SavedPoint)
    requires OneKeyEach(saved) && s in saved
    ensures RestoreKey(s) in PutAll(store, saved) && PutAll(store, saved)[RestoreKey(s)] == s.point
  {
    var shorter, last := saved[..|saved| - 1], saved[|saved| - 1];
    assert saved == shorter + [last];
    if s != last {
      PutAllHolds(store, shorter, s);
      assert last in saved;
    }
  }

  // A point put back stays so when more of the saved points are put back.
  lemma StaysRestored(mid: Store, more: seq<SavedPoint>, saved: seq<SavedPoint>, s: SavedPoint)
    requires OneKeyEach(saved) && s in saved && forall t <- more :: t in saved
    requires s in more || (RestoreKey(s) in mid && mid[RestoreKey(s)] == s.point)
    ensures RestoreKey(s) in PutAll(mid, more) && PutAll(mid, more)[RestoreKey(s)] == s.point
  {
    if s in more {
      PutAllHolds(mid, more, s);
    } else {
      PutAllElsewhere(mid, more, RestoreKey(s));
    }
  }

  lemma RestoreMore(was: Store, mid: Store, now: Store, done: set<SavedPoint>, more: seq<SavedPoint>,
                    saved: seq<SavedPoint>)
    requires OneKeyEach(saved) && RestoredSoFar(was, mid, done)
    requires (forall s <- done :: s in saved) && (forall s <- more :: s in saved)
    requires now == PutAll(mid, more)
    ensures RestoredSoFar(was, now, done + (set s <- more))
  {
    MorePutBack(mid, done, more, saved);
    OthersUntouched(was, mid, done, more);
  }

  lemma MorePutBack(mid: Store, done: set<SavedPoint>, more: seq<SavedPoint>, saved: seq<SavedPoint>)
    requires OneKeyEach(saved) && (forall s <- done :: s in saved) && (forall s <- more :: s in saved)
    requires PutBack(mid, done)
    ensures PutBack(PutAll(mid, more), done + (set s <- more))
  {
    forall s | s in done + (set s <- more)
      ensures RestoreKey(s) in PutAll(mid, more) && PutAll(mid, more)[RestoreKey(s)] == s.point
    {
      StaysRestored(mid, more, saved, s);
    }
  }

  lemma OthersUntouched(was: Store, mid: Store, done: set<SavedPoint>, more: seq<SavedPoint>)
    requires Untouched(was, mid, done)
    ensures Untouched(was, PutAll(mid, more), done + (set s <- more))
  {
    var all, now := done + (set s <- more), PutAll(mid, more);
    forall key: Key | (forall s <- all :: RestoreKey(s) != key)
      ensures (key in now <==> key in was) && (key in was ==> now[key] == was[key])
    {
      assert forall s <- done :: s in all;
      assert forall s <- more :: s in all;
      PutAllElsewhere(mid, more, key);
    }
  }

  function InCollection(collection: string): SavedPoint -> bool { (s: SavedPoint) => s.collection == collection }

  // How many saved points the given collections have.
  ghost function InCollections(saved: seq<SavedPoint>, collections: set<string>): nat {
    |Filter(saved, (s: SavedPoint) => s.collection in collections)|
  }

  lemma NotMoreSaved(saved: seq<SavedPoint>, collections: set<string>)
    ensures InCollections(saved, collections) <= |saved|
  {
    FilterShortens(saved, (s: SavedPoint) => s.collection in collections);
  }

  lemma OneCollectionLess(saved: seq<SavedPoint>, collections: set<string>, one: string)
    requires one in collections
    ensures InCollections(saved, collections)
         == |Filter(saved, InCollection(one))| + InCollections(saved, collections - {one})
  {
    FilterSplits(saved, (s: SavedPoint) => s.collection in collections, InCollection(one),
                 (s: SavedPoint) => s.collection in collections - {one});
  }

  // _restore_from_manifest.  A missing or unbound backup is refused; a restore that completes has
  // put every saved point under its collection and textual id, and an interrupted one some of them.
  method RunRestore(machine: Machine) returns (status: Status, ghost done: set<SavedPoint>)
    requires machine.backup.Some? ==> OneKeyEach(machine.backup.value)
    modifies machine`store, machine`fuel
    ensures RestoredSoFar(old(machine.store), machine.store, done)
    ensures done != {} ==> machine.backup.Some? && forall s <- done :: s in machine.backup.value
    ensures !status.Crashed? ==>
      (status.Done? <==>
       && machine.manifest.Some? && machine.backup.Some?
       && machine.manifest.value.digest == FileDigest(machine.backup.value)
       && forall s <- machine.backup.value :: s.collection != "" && s.pointId != "")
    ensures status.Done? ==> done == set s <- machine.backup.value
    ensures status.Crashed? ==> machine.fuel == 0
    ensures machine.backup.Some? ==> machine.fuel <= old(machine.fuel) <= machine.fuel + |machine.backup.value|
    ensures machine.backup.None? ==> status.Raised?
  {
    done := {};
    if machine.manifest == None || machine.backup == None { return Raised, done; }
    var saved := machine.backup.value;
    if machine.manifest.value.digest != FileDigest(saved) { return Raised, done; }
    if exists s <- saved :: s.collection == "" || s.pointId == "" { return Raised, done; }
    var lived;
    lived, done := RestoreCollections(machine, saved);
    status := if lived then Done else Crashed;
  }

  // All the collections, in any order.
  method RestoreCollections(machine: Machine, saved: seq<SavedPoint>) returns (lived: bool, ghost done: set<SavedPoint>)
    requires OneKeyEach(saved)
    modifies machine`store, machine`fuel
    ensures RestoredSoFar(old(machine.store), machine.store, done) && forall s <- done :: s in saved
    ensures lived ==> done == set s <- saved
    ensures !lived ==> machine.fuel == 0
    ensures machine.fuel <= old(machine.fuel) <= machine.fuel + |saved|
  {
    done := {};
    var pending := set s <- saved :: s.collection;
    NotMoreSaved(saved, pending);
    while pending != {}
      invariant machine.fuel <= old(machine.fuel) <= machine.fuel + |saved| - InCollections(saved, pending)
      invariant RestoredSoFar(old(machine.store), machine.store, done)
      invariant forall s :: s in done <==> s in saved && s.collection !in pending
      decreases pending
    {
      var collection :| collection in pending;
      OneCollectionLess(saved, pending, collection);
      lived, done := RestoreCollection(machine, saved, collection, old(machine.store), done);
      if !lived { return; }
      pending := pending - {collection};
    }
    lived := true;
  }

  method RestoreCollection(machine: Machine, saved: seq<SavedPoint>, collection: string, ghost was: Store,
                           ghost before: set<SavedPoint>)
    returns (lived: bool, ghost done: set<SavedPoint>)
    requires OneKeyEach(saved) && RestoredSoFar(was, machine.store, before) && forall s <- before :: s in saved
    modifies machine`store, machine`fuel
    ensures RestoredSoFar(was, machine.store, done) && forall s <- done :: s in saved
    ensures lived ==> forall s :: s in done <==> s in before || (s in saved && s.collection == collection)
    ensures !lived ==> machine.fuel == 0
    ensures machine.fuel <= old(machine.fuel) <= machine.fuel + |Filter(saved, InCollection(collection))|
  {
    var ours := InCollection(collection);
    var items := Filter(saved, ours);
    forall s ensures s in items <==> s in saved && ours(s) { FilterKeeps(saved, ours, s); }
    done := before;
    var start := 0;
    while start < |items|
      invariant start <= |items| && machine.fuel <= old(machine.fuel) <= machine.fuel + start
      invariant RestoredSoFar(was, machine.store, done)
      invariant forall s :: s in done <==> s in before || s in items[..start]
    {
      var end := Min(start + 64, |items|);
      NextSlice(items, start, end);
      ghost var mid := machine.store;
      lived := machine.PutBack(items[start..end]);
      if !lived { return; }
      RestoreMore(was, mid, machine.store, done, items[start..end], saved);
      done := done + (set s <- items[start..end]);
      start := end;
    }
    assert items[..start] == items;
    lived := true;
  }

  function Live(store: Store, quarantine: string): Store {
    map key | key in store && key.collection != quarantine :: store[key]
  }

  lemma SavedOneKeyEach(was: Store, candidates: seq<Candidate>)
    requires Collected(was, candidates)
    ensures OneKeyEach(Saved(candidates))
  {
    CollectedOneEach(was, candidates);
    var saved := Saved(candidates);
    forall s <- saved, t <- saved | RestoreKey(s) == RestoreKey(t) ensures s == t {
      var i :| 0 <= i < |saved| && saved[i] == s;
      var j :| 0 <= j < |saved| && saved[j] == t;
      assert candidates[i] in candidates && candidates[j] in candidates;
    }
  }

  // With textual ids a restored key is the original one, holding the original point.
  lemma RestoredOriginal(was: Store, now: Store, back: Store, candidates: seq<Candidate>, c: Candidate)
    requires Collected(was, candidates) && c in candidates && c.id.Uuid?
    requires RestoredSoFar(now, back, set s <- Saved(candidates))
    ensures OriginalKey(c) in back && back[OriginalKey(c)] == was[OriginalKey(c)]
  {
    var i :| 0 <= i < |candidates| && candidates[i] == c;
    assert Saved(candidates)[i] in Saved(candidates);
    assert RestoreKey(Saved(candidates)[i]) == OriginalKey(c);
  }

  // A key that is not an original one is as it was before the restore.
  lemma RestoredElsewhere(now: Store, back: Store, candidates: seq<Candidate>, key: Key)
    requires forall c <- candidates :: c.id.Uuid?
    requires !IsOriginal(key, candidates)
    requires RestoredSoFar(now, back, set s <- Saved(candidates))
    ensures key in back <==> key in now
    ensures key in now ==> back[key] == now[key]
  {
    var saved := Saved(candidates);
    forall s <- saved ensures RestoreKey(s) != key {
      var i :| 0 <= i < |saved| && saved[i] == s;
      assert candidates[i] in candidates;
      assert RestoreKey(s) == OriginalKey(candidates[i]);
    }
  }

  lemma TextIdsRestoreAll(was: Store, now: Store, back: Store, candidates: seq<Candidate>, quarantine: string)
    requires FreshQuarantine(was, candidates, quarantine)
    requires OnlyOriginalsMissing(was, now, candidates, quarantine)
    requires RestoredSoFar(now, back, set s <- Saved(candidates))
    requires forall c <- candidates :: c.id.Uuid?
    ensures Live(back, quarantine) == was
  {
    forall key: Key
      ensures key in Live(back, quarantine) <==> key in was
      ensures key in was ==> back[key] == was[key]
    {
      if IsOriginal(key, candidates) {
        var c :| c in candidates && key == OriginalKey(c);
        RestoredOriginal(was, now, back, candidates, c);
      } else {
        RestoredElsewhere(now, back, candidates, key);
      }
    }
  }

  // From the state at any crash point of the apply, a completed restore makes the live
  // collections exactly what they were, if and only if every candidate's id was text.
  lemma RestoreIsExact(was: Store, now: Store, back: Store, candidates: seq<Candidate>, quarantine: string)
    requires FreshQuarantine(was, candidates, quarantine)
    requires OnlyOriginalsMissing(was, now, candidates, quarantine)
    requires RestoredSoFar(now, back, set s <- Saved(candidates))
    ensures Live(back, quarantine) == was <==> forall c <- candidates :: c.id.Uuid?
  {
    if forall c <- candidates :: c.id.Uuid? {
      TextIdsRestoreAll(was, now, back, candidates, quarantine);
    } else {
      var i :| 0 <= i < |candidates| && !candidates[i].id.Uuid?;
      NumberComesBackAsText(was, now, back, candidates, i);
      assert candidates[i] in candidates && OriginalKey(candidates[i]) in was.Keys;
    }
  }

  // A point whose id is no text comes back under a key the store did not have.
  lemma NumberComesBackAsText(was: Store, now: Store, back: Store, candidates: seq<Candidate>, i: nat)
    requires Collected(was, candidates) && i < |candidates| && !candidates[i].id.Uuid?
    requires RestoredSoFar(now, back, set s <- Saved(candidates))
    ensures RestoreKey(Saved(candidates)[i]) in back && RestoreKey(Saved(candidates)[i]) !in was
    ensures RestoreKey(Saved(candidates)[i]).collection == candidates[i].collection
  {
    assert Saved(candidates)[i] in Saved(candidates) && candidates[i] in candidates;
    assert OriginalKey(candidates[i]) in was.Keys;
  }

  // The same for a restore of a store in which nothing was removed: all of it is as it was.
  lemma RestoreInPlaceIsExact(was: Store, back: Store, candidates: seq<Candidate>)
    requires Collected(was, candidates) && RestoredSoFar(was, back, set s <- Saved(candidates))
    ensures back == was <==> forall c <- candidates :: c.id.Uuid?
  {
    if forall c <- candidates :: c.id.Uuid? {
      forall key: Key ensures (key in back <==> key in was) && (key in was ==> back[key] == was[key]) {
        if c :| c in candidates && key == OriginalKey(c) {
          RestoredOriginal(was, was, back, candidates, c);
        } else {
          RestoredElsewhere(was, back, candidates, key);
        }
      }
    } else {
      var i :| 0 <= i < |candidates| && !candidates[i].id.Uuid?;
      NumberComesBackAsText(was, was, back, candidates, i);
    }
  }

  // The store without the collection that the run creates; a quarantine collection that was there before
  // is kept.
  ghost function WithoutNew(store: Store, collections: set<string>, quarantine: string): Store {
    if quarantine in collections then store else Live(store, quarantine)
  }

  // End to end: quarantine, stop anywhere, then restore with so many effects left.  With more than one
  // for each candidate the restore ends by itself.  When it completes, everything but the collection the
  // run created is as before exactly if every id was text, also when the quarantine collection existed and
  // the run raised behind its manifest; when it is refused, nothing had been removed.
  method QuarantineThenRestore(machine: Machine, candidates: seq<Candidate>, batch: string, quarantine: string,
                               size: nat, fuel: nat)
    returns (first: Status, second: Status)
    requires size > 0 && Collected(machine.store, candidates)
    requires forall key <- machine.store.Keys :: key.collection in machine.collections
    requires machine.backup == None && machine.manifest == None
    modifies machine
    ensures old(machine.fuel) > 2 * |candidates| + 6 ==> !first.Crashed?
    ensures fuel > |candidates| ==> !second.Crashed?
    ensures old(machine.fuel) > 1 && fuel > |candidates| ==> second.Done?
    ensures second.Done? ==>
      (WithoutNew(machine.store, old(machine.collections), quarantine) == old(machine.store)
       <==> forall c <- candidates :: c.id.Uuid?)
    ensures second.Raised? ==> WithoutNew(machine.store, old(machine.collections), quarantine) == old(machine.store)
  {
    ghost var was, collections := machine.store, machine.collections;
    SavedOneKeyEach(was, candidates);
    first := machine.RunApply(candidates, batch, quarantine, size);
    ghost var now := machine.store;
    machine.fuel := fuel;
    if machine.manifest == None {
      second := Raised;
      NothingRemoved(was, now, candidates, collections, quarantine);
      return;
    }
    ghost var done;
    second, done := RunRestore(machine);
    if !second.Crashed? {
      assert second.Done? by {
        forall i | 0 <= i < |candidates| ensures candidates[i] in candidates { }
      }
      if quarantine in collections {
        RestoreInPlaceIsExact(was, machine.store, candidates);
      } else {
        RestoreIsExact(was, now, machine.store, candidates, quarantine);
      }
    }
  }

  lemma NothingRemoved(was: Store, now: Store, candidates: seq<Candidate>, collections: set<string>, quarantine: string)
    requires OnlyOriginalsMissing(was, now, candidates, quarantine) && forall c <- candidates :: InPlace(now, c)
    requires forall key <- was.Keys :: key.collection in collections
    requires quarantine in collections ==> now == was
    ensures WithoutNew(now, collections, quarantine) == was
  {
    forall key: Key ensures quarantine !in collections ==> (key in Live(now, quarantine) <==> key in was) { }
  }

  // A run over one point whose project is blank or has whitespace around it: the copy is made and verified,
  // nothing is deleted, and the run raises with the original still in place.
  method PaddedProjectRun(collection: string, id: string, project: string, batch: string, quarantine: string)
    returns (machine: Machine, status: Status)
    requires collection != "" && id != "" && quarantine != collection && (project == "" || Strip(project) != project)
    ensures status == Raised && machine.manifest.Some? && machine.manifest.value.stage == CopyVerified
    ensures Key(collection, Uuid(id)) in machine.store
    ensures Key(quarantine, Derived(batch, collection, id)) in machine.store
  {
    var c := Candidate(collection, Uuid(id), Point(map["project" := Str(project)], []));
    machine := new Machine(map[OriginalKey(c) := c.point], {collection}, 9);
    status := machine.RunApply([c], batch, quarantine, 64);
  }
}
