/** Whole cycles of the reflection daemon, over points its scan can give, in which a promise fails. */
module ReflectionRuns {
  import opened Text
  import opened Seqs
  import opened Payloads
  import opened Reflection

  // The scan has something to give: of payloads with nothing but a content, it takes those whose content is
  // long enough.
  lemma ContentIsEnough(content: string)
    ensures IsCandidate(map["data" := Str(content)]) <==> |Strip(content)| >= LeastContent
  {
    var p: Payload := map["data" := Str(content)];
    assert ContentOf(p) == content;
    forall field | field != "data" ensures LowerText(p, field) == "" { }
  }

  // An id as the store gives it and an audit names it.
  predicate IsName(id: string) { id != "" && Strip(id) == id }

  // Two points of one payload, the records of them, and an audit that names them.
  function TwoPoints(p: string, q: string, payload: Payload): Store { map[p := payload, q := payload] }

  function TwoRecords(p: string, q: string, payload: Payload): (records: seq<Record>)
    ensures |records| == 2 && records[0] == RecordOf(p, payload) && records[1] == RecordOf(q, payload)
  {
    [RecordOf(p, payload), RecordOf(q, payload)]
  }

  function TwoInAudit(p: string, q: string): RawAudit { RawAudit("CONSOLIDATED", Named([p, q]), "x") }

  // A candidate of the scope, by its payload and by the record that is made of it.
  ghost predicate InScope(payload: Payload, scope: string) {
    IsCandidate(payload) && ScopeOf(payload) == scope && forall id: string :: RecordOf(id, payload).project == scope
  }

  lemma TwoNamed(records: seq<Record>, p: string, q: string)
    requires |records| == 2 && records[0].pointId == p && records[1].pointId == q
    requires IsName(p) && IsName(q) && p != q
    ensures AuditTargets(TwoInAudit(p, q), records) == [p, q]
    ensures NormalizedAudit(TwoInAudit(p, q), records).consolidated
    ensures Resolve([p, q], records) == Resolved([p, q])
  {
    assert records[0] in records && records[1] in records;
    TwoNames(TwoInAudit(p, q), records, [p, q]);
    ResolveToThemselves([p, q], records);
  }

  lemma TwoAudited(records: seq<Record>, read: Store, scope: string)
    requires |records| == 2 && records[0].pointId != records[1].pointId
    requires forall i | 0 <= i < 2 ::
      && records[i].pointId in read && read[records[i].pointId] == records[i].payload
      && ScopeOf(records[i].payload) == scope
    ensures AllUnchanged(read, [records[0].pointId, records[1].pointId], records, scope)
  {
    LastIsAudited(records);
    LastIsAudited(records[..1]);
  }

  lemma LastIsAudited(records: seq<Record>)
    requires records != []
    ensures Audited(records, records[|records| - 1].pointId) == Some(records[|records| - 1])
  {
  }

  lemma TwoScanned(records: seq<Record>, scope: string)
    requires |records| == 2 && Scanned(records[0], scope) && Scanned(records[1], scope)
    ensures forall r <- records :: Scanned(r, scope)
  {
    assert records == [records[0], records[1]];
  }

  // What the targets look like when they are read again does not depend on the crystal.
  lemma TwoReadBack(p: string, q: string, payload: Payload, scope: string, content: string, w: World)
    requires w.crystalId != p && w.crystalId != q && w.afterWrite(WithCrystal(p, q, payload, scope, content, w))
      == WithCrystal(p, q, payload, scope, content, w)
    ensures var read := ReadBack(TwoPoints(p, q, payload), scope, content, w);
      p in read && q in read && read[p] == read[q] == payload
  {
  }

  // The store behind the call that adds the crystal.
  function WithCrystal(p: string, q: string, payload: Payload, scope: string, content: string, w: World): Store {
    if w.addition == Stores then TwoPoints(p, q, payload)[w.crystalId := CrystalPayload(scope, content)]
    else TwoPoints(p, q, payload)
  }

  lemma TwoMayDelete(records: seq<Record>, start: Store, p: string, q: string, scope: string, w: World,
                     content: string)
    requires |records| == 2 && records[0].pointId == p && records[1].pointId == q && p != q
    requires Resolve([p, q], records) == Resolved([p, q]) && w.addition != Raises && w.readOk
    requires forall r <- records :: r.project == scope && ScopeOf(r.payload) == scope
    requires var read := ReadBack(start, scope, content, w);
      p in read && q in read && read[p] == records[0].payload && read[q] == records[1].payload
    ensures MayDelete(start, [p, q], content, records, scope, w)
    ensures CallOf(start, [p, q], content, records, scope, w).ids == [p, q]
  {
    assert records[0] in records && records[1] in records;
    TwoAudited(records, ReadBack(start, scope, content, w), scope);
  }

  lemma TwoCall(p: string, q: string, payload: Payload, scope: string, content: string, w: World)
    requires IsName(p) && IsName(q) && p != q && InScope(payload, scope)
    requires w.addition != Raises && w.readOk && w.crystalId != p && w.crystalId != q
    requires w.afterWrite(WithCrystal(p, q, payload, scope, content, w))
      == WithCrystal(p, q, payload, scope, content, w)
    ensures MayDelete(TwoPoints(p, q, payload), [p, q], content, TwoRecords(p, q, payload), scope, w)
    ensures var call := CallOf(TwoPoints(p, q, payload), [p, q], content, TwoRecords(p, q, payload), scope, w);
      call.ids == [p, q] && call.read == WithCrystal(p, q, payload, scope, content, w)
  {
    TwoNamed(TwoRecords(p, q, payload), p, q);
    TwoReadBack(p, q, payload, scope, content, w);
    TwoMayDelete(TwoRecords(p, q, payload), TwoPoints(p, q, payload), p, q, scope, w, content);
  }

  // A cycle whose calls all succeed, over two points that nobody changes before they are read back: it
  // reports both as deleted.
  method TwoPointCycle(p: string, q: string, payload: Payload, content: string, project: string, w: World)
    returns (core: GlobalCore, r: CycleResult, ghost call: DeleteCall)
    requires IsName(p) && IsName(q) && p != q && InScope(payload, CanonicalName(project))
    requires w.addition != Raises && w.readOk && w.reply == Heard && w.crystalId != p && w.crystalId != q
    requires w.afterWrite(WithCrystal(p, q, payload, CanonicalName(project), content, w))
      == WithCrystal(p, q, payload, CanonicalName(project), content, w)
    ensures r == Ran(Committed([p, q]))
    ensures MayDelete(TwoPoints(p, q, payload), [p, q], content, TwoRecords(p, q, payload), CanonicalName(project), w)
    ensures call
         == CallOf(TwoPoints(p, q, payload), [p, q], content, TwoRecords(p, q, payload), CanonicalName(project), w)
    ensures call.read == WithCrystal(p, q, payload, CanonicalName(project), content, w)
    ensures call.met == w.afterRead(call.read) && call.ids == [p, q]
    ensures core.points == Deleted(call.met, [p, q], CanonicalName(project))
  {
    var records := TwoRecords(p, q, payload);
    TwoNamed(records, p, q);
    TwoScanned(records, CanonicalName(project));
    TwoCall(p, q, payload, CanonicalName(project), content, w);
    core := new GlobalCore(TwoPoints(p, q, payload));
    call := CallOf(TwoPoints(p, q, payload), [p, q], content, records, CanonicalName(project), w);
    r := RunReflectionCycle(core, project, false, records, Some(TwoInAudit(p, q)), content, w);
  }

  // Points without a project are not selected by the delete.
  lemma UnownedStay(met: Store, ids: seq<string>, p: string, scope: string)
    requires p in met && "project" !in met[p]
    ensures p in Deleted(met, ids, scope) && Deleted(met, ids, scope)[p] == met[p]
  {
  }

  // Two candidates without a project pass every check of a cycle over the default one, are reported as
  // deleted, and stay as they were.
  method DefaultedPointsRun(p: string, q: string, payload: Payload, crystalId: string, content: string, project: string)
    returns (core: GlobalCore, r: CycleResult)
    requires IsName(p) && IsName(q) && p != q && crystalId != p && crystalId != q
    requires IsCandidate(payload) && "project" !in payload && CanonicalName(project) == DefaultProject
    ensures r == Ran(Committed([p, q]))
    ensures p in core.points && q in core.points && core.points[p] == core.points[q] == payload
  {
    UnownedScope(payload);
    ghost var call;
    core, r, call := TwoPointCycle(p, q, payload, content, project,
      World(Stores, crystalId, (m: Store) => m, true, (m: Store) => m, Heard));
    UnownedStay(call.met, [p, q], p, DefaultProject);
    UnownedStay(call.met, [p, q], q, DefaultProject);
  }

  lemma UnownedScope(payload: Payload)
    requires "project" !in payload
    ensures ScopeOf(payload) == DefaultProject && forall id: string :: RecordOf(id, payload).project == DefaultProject
  {
    assert Strip("") == "";
  }

  // The project is written in the payload, as the scope has it.
  lemma WrittenScope(payload: Payload, project: string)
    requires Get(payload, "project") == Str(CanonicalName(project))
    ensures ScopeOf(payload) == CanonicalName(project)
    ensures forall id: string :: RecordOf(id, payload).project == CanonicalName(project)
  {
    ScopeIsNotBlank(project);
    CanonicalIsIdempotent(project);
  }

  // An edit of one of two points that lands after they were read back is deleted with its point, as long
  // as the project stays.
  method LateEditRun(p: string, q: string, payload: Payload, edited: Payload, crystalId: string, content: string,
                     project: string)
    returns (core: GlobalCore, r: CycleResult, ghost call: DeleteCall)
    requires IsName(p) && IsName(q) && p != q && crystalId != p && crystalId != q && IsCandidate(payload)
    requires Get(payload, "project") == Get(edited, "project") == Str(CanonicalName(project)) && edited != payload
    ensures r == Ran(Committed([p, q]))
    ensures p in call.met && call.met[p] == edited && p !in core.points
    ensures LosesUnaudited(call, core.points, TwoRecords(p, q, payload), p)
  {
    var w := World(Stores, crystalId, (m: Store) => m, true, (m: Store) => m[p := edited], Heard);
    WrittenScope(payload, project);
    core, r, call := TwoPointCycle(p, q, payload, content, project, w);
    TwoDistinct(TwoRecords(p, q, payload));
    LateEditIsLost(TwoPoints(p, q, payload), [p, q], content, TwoRecords(p, q, payload), CanonicalName(project), w, p);
  }

  // The call that is to add the crystal returns without storing anything: the points are deleted all the
  // same, and nothing is left of them.
  method NoCrystalRun(p: string, q: string, payload: Payload, crystalId: string, content: string, project: string)
    returns (core: GlobalCore, r: CycleResult)
    requires IsName(p) && IsName(q) && p != q && crystalId != p && crystalId != q && IsCandidate(payload)
    requires Get(payload, "project") == Str(CanonicalName(project))
    ensures r == Ran(Committed([p, q])) && core.points == map[]
  {
    WrittenScope(payload, project);
    ghost var call;
    core, r, call := TwoPointCycle(p, q, payload, content, project,
      World(StoresNothing, crystalId, (m: Store) => m, true, (m: Store) => m, Heard));
    BothGo(p, q, payload, CanonicalName(project));
  }

  lemma BothGo(p: string, q: string, payload: Payload, scope: string)
    requires Get(payload, "project") == Str(scope)
    ensures Deleted(TwoPoints(p, q, payload), [p, q], scope) == map[]
  {
  }

  lemma ScopeIsNotBlank(project: string)
    ensures CanonicalName(project) != ""
  {
  }

  lemma TwoDistinct(records: seq<Record>)
    requires |records| == 2 && records[0].pointId != records[1].pointId
    ensures DistinctBy(records, PointIdOf)
  {
  }

  // The point id and the source id of one of two records: the audit is accepted, and the commit refuses it
  // as too few; nothing changes.
  method TwoNamesOnePointRun(a: Record, b: Record, start: Store, content: string, project: string, w: World)
    returns (core: GlobalCore, r: CycleResult)
    requires Scanned(a, CanonicalName(project)) && Scanned(b, CanonicalName(project)) && a.pointId != b.pointId
    requires IsName(a.pointId) && IsName(a.sourceId) && a.sourceId !in {a.pointId, b.pointId, b.sourceId}
    ensures r == Ran(Refused(TooFewTargets)) && core.points == start
  {
    var records := [a, b];
    var raw := RawAudit("CONSOLIDATED", Named([a.pointId, a.sourceId]), "x");
    TwoScanned(records, CanonicalName(project));
    BothNames(records, raw);
    core := new GlobalCore(start);
    r := RunReflectionCycle(core, project, false, records, Some(raw), content, w);
  }

  lemma BothNames(records: seq<Record>, raw: RawAudit)
    requires |records| == 2 && HaveIds(records) && IsName(records[0].pointId) && IsName(records[0].sourceId)
    requires records[0].sourceId !in {records[0].pointId, records[1].pointId, records[1].sourceId}
    requires raw == RawAudit("CONSOLIDATED", Named([records[0].pointId, records[0].sourceId]), "x")
    ensures NormalizedAudit(raw, records).consolidated && NameOnePoint(AuditTargets(raw, records), records)
    ensures Resolve(AuditTargets(raw, records), records) == TooFew
  {
    var p, s := records[0].pointId, records[0].sourceId;
    assert records == [records[0], records[1]];
    assert records[0] in records && records[1] in records;
    TwoNames(raw, records, [p, s]);
    SourceOfFirst(records);
    assert s !in PointIds(records);
    TooFewIffOnePoint(raw, records);
  }

  lemma SourceOfFirst(records: seq<Record>)
    requires |records| == 2 && records[1].sourceId != records[0].sourceId
    ensures PointBySource(records, records[0].sourceId) == records[0].pointId
  {
    var first := records[..1];
    assert first[|first| - 1] == records[0];
  }
}
