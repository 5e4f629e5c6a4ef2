/** The reflection daemon (scripts/bhm_reflection_daemon.py): an audit names old points that one new
    super-crystal replaces; the commit writes the crystal, reads the named points again, and deletes
    them by a filter.  Other writers may change the store between any two of these steps. */
module Reflection {
  import opened Text
  import opened Seqs
  import opened Payloads

  const MinTargets: nat := 2
  const DefaultProject := "blackholememory"

  type Store = map<string, Payload>

  // ---------------------------------------------------------------- records

  // canonical_project_name
  function CanonicalName(text: string): (name: string)
    ensures Blank(text) ==> name == "blackholememory"
    ensures !Blank(text) ==> name == Strip(text) != ""
  {
    StripBlank(text);
    if Strip(text) == "" then DefaultProject else Strip(text)
  }

  function ScopeOf(p: Payload): string { CanonicalName(TextOrEmpty(Get(p, "project"))) }

  lemma CanonicalIsIdempotent(text: string)
    ensures CanonicalName(CanonicalName(text)) == CanonicalName(text)
  {
    StripIsIdempotent(text);
    assert Strip(DefaultProject) == DefaultProject;
  }

  datatype Record = Record(pointId: string, sourceId: string, project: string, payload: Payload)

  function TextOr(v: Value, otherwise: string): string {
    if Truthy(v) then TextOrEmpty(v) else otherwise
  }

  // point_to_record, for a candidate payload.
  function RecordOf(id: string, p: Payload): Record {
    Record(id, TextOr(Get(p, "source_id"), TextOr(Get(p, "id"), id)), TextOr(Get(p, "project"), DefaultProject), p)
  }

  // record_content
  function ContentOf(p: Payload): string {
    TextOr(Get(p, "data"), TextOr(Get(p, "memory"), TextOr(Get(p, "content"), "")))
  }

  const LeastContent: nat := 40

  function LowerText(p: Payload, field: string): string { Lower(Strip(TextOrEmpty(Get(p, field)))) }

  // is_candidate_payload, for the tags that are fields of their own.
  predicate IsCandidate(p: Payload) {
    && LowerText(p, "lifecycle") !in {"archived", "deprecated"}
    && !("bhm-surface-smoke" <= LowerText(p, "project"))
    && (forall field <- ["domain", "semantic_type", "priority", "memory_type", "project"] ::
          LowerText(p, field) !in {"surface-smoke", "smoke-test"})
    && |Strip(ContentOf(p))| >= LeastContent
  }

  // is_candidate_payload and point_to_record, in the order of the code.
  method PointToRecord(id: string, p: Payload) returns (r: Option<Record>)
    ensures r.Some? <==> IsCandidate(p)
    ensures r.Some? ==> r.value == RecordOf(id, p)
  {
    var lifecycle := Lower(Strip(TextOrEmpty(Get(p, "lifecycle"))));
    if lifecycle == "archived" || lifecycle == "deprecated" { return None; }
    var project := Lower(Strip(TextOrEmpty(Get(p, "project"))));
    if "bhm-surface-smoke" <= project { return None; }
    var keys := ["domain", "semantic_type", "priority", "memory_type", "project"];
    for i := 0 to |keys|
      invariant forall field <- keys[..i] :: LowerText(p, field) !in {"surface-smoke", "smoke-test"}
    {
      var tag := Lower(Strip(TextOrEmpty(Get(p, keys[i]))));
      if tag == "surface-smoke" || tag == "smoke-test" { assert keys[i] in keys; return None; }
      TakeNext(keys, i);
    }
    assert keys[..|keys|] == keys;
    var content := FirstText(p, ["data", "memory", "content"], "");
    ContentIsFirst(p);
    if |Strip(content)| < 40 { return None; }
    var source, name := FirstText(p, ["source_id", "id"], id), FirstText(p, ["project"], "blackholememory");
    NamesAreFirst(id, p);
    r := Some(Record(id, source, name, p));
  }

  // `a or b or otherwise`, as text.
  function FirstText(p: Payload, fields: seq<string>, otherwise: string): string {
    if fields == [] then otherwise
    else
      match Get(p, fields[0])
      case Null => FirstText(p, fields[1..], otherwise)
      case Str(s) => if s != "" then s else FirstText(p, fields[1..], otherwise)
      case Other(truthy, text) => if truthy then text else FirstText(p, fields[1..], otherwise)
  }

  lemma FirstTextNext(p: Payload, field: string, fields: seq<string>, otherwise: string)
    ensures FirstText(p, [field] + fields, otherwise) == TextOr(Get(p, field), FirstText(p, fields, otherwise))
    ensures FirstText(p, [field], otherwise) == TextOr(Get(p, field), otherwise)
  {
    assert ([field] + fields)[1..] == fields && [field][1..] == [];
  }

  lemma ContentIsFirst(p: Payload)
    ensures FirstText(p, ["data", "memory", "content"], "") == ContentOf(p)
  {
    FirstTextNext(p, "data", ["memory", "content"], "");
    FirstTextNext(p, "memory", ["content"], "");
    FirstTextNext(p, "content", [], "");
    assert ["data", "memory", "content"] == ["data"] + ["memory", "content"];
    assert ["memory", "content"] == ["memory"] + ["content"];
  }

  lemma NamesAreFirst(id: string, p: Payload)
    ensures FirstText(p, ["source_id", "id"], id) == TextOr(Get(p, "source_id"), TextOr(Get(p, "id"), id))
    ensures FirstText(p, ["project"], "blackholememory") == TextOr(Get(p, "project"), DefaultProject)
  {
    FirstTextNext(p, "source_id", ["id"], id);
    FirstTextNext(p, "id", [], id);
    FirstTextNext(p, "project", [], "blackholememory");
    assert ["source_id", "id"] == ["source_id"] + ["id"];
  }

  predicate HaveIds(records: seq<Record>) { forall r <- records :: r.pointId != "" }

  // ---------------------------------------------------------------- the audit

  /** A list of names as the model may return it: one text, a list of values, or something else. */
  datatype RawList = One(text: string) | Many(items: seq<Value>) | Unlisted

  function RawItems(raw: RawList): seq<Value> {
    match raw case One(text) => [Str(text)] case Many(items) => items case Unlisted => []
  }

  function Texts(items: seq<Value>): seq<string> {
    if items == [] then [] else Texts(items[..|items| - 1]) + [Strip(TextOrEmpty(items[|items| - 1]))]
  }

  function StringList(raw: RawList): seq<string> { Names(RawItems(raw)) }

  function Names(items: seq<Value>): seq<string> { Distinct(Texts(items)) }

  lemma NamesSnoc(items: seq<Value>, v: Value)
    ensures Names(items + [v]) == AddDistinct(Names(items), Strip(TextOrEmpty(v)))
  {
    TextsSnoc(items, v);
    DistinctNext(Texts(items), Strip(TextOrEmpty(v)));
  }

  method NormalizeStringList(raw: RawList) returns (result: seq<string>)
    ensures result == StringList(raw)
  {
    var items := RawItems(raw);
    result := [];
    for i := 0 to |items|
      invariant result == Names(items[..i])
    {
      TakeNext(items, i);
      NamesSnoc(items[..i], items[i]);
      result := AddDistinct(result, Strip(TextOrEmpty(items[i])));
    }
    assert items[..|items|] == items;
  }

  /** What the model answered: the action in upper case, the ids it wants deleted, the crystal's
      core insight.  The normalized form has the same parts. */
  datatype RawAudit = RawAudit(action: string, targets: RawList, insight: string)

  datatype Audit = Audit(consolidated: bool, targets: seq<string>, insight: string)

  // trim_text
  function TrimText(text: string, limit: nat): string {
    var t := Strip(text);
    if |t| <= limit then t else StripRight(t[..Min(|t|, Max(limit - 20, 1))]) + "... [truncated]"
  }

  const InsightLimit: nat := 1800

  function KnownIds(records: seq<Record>): set<string> {
    (set r <- records :: r.pointId) + (set r <- records :: r.sourceId)
  }

  function AuditTargets(raw: RawAudit, records: seq<Record>): seq<string> {
    Filter(StringList(raw.targets), (t: string) => t in KnownIds(records))
  }

  function NormalizedAudit(raw: RawAudit, records: seq<Record>): Audit {
    var targets, insight := AuditTargets(raw, records), TrimText(raw.insight, InsightLimit);
    Audit(raw.action == "CONSOLIDATED" && |targets| >= MinTargets && insight != "", targets, insight)
  }

  // normalize_audit_result.  Its test for repeats never fires: the list has none.
  method NormalizeAuditResult(raw: RawAudit, records: seq<Record>) returns (audit: Audit)
    ensures audit == NormalizedAudit(raw, records)
  {
    var known := KnownIds(records);
    var items := NormalizeStringList(raw.targets);
    DistinctHasNoRepeats(Texts(RawItems(raw.targets)));
    var targets: seq<string> := [];
    for i := 0 to |items|
      invariant targets == Filter(items[..i], (t: string) => t in KnownIds(records))
    {
      assert items[..i + 1][..i] == items[..i];
      FilterKeeps(items[..i], (t: string) => t in KnownIds(records), items[i]);
      if items[i] in known && items[i] !in targets { targets := targets + [items[i]]; }
    }
    assert items[..|items|] == items;
    var consolidated := raw.action == "CONSOLIDATED";
    var insight := TrimText(raw.insight, InsightLimit);
    if consolidated {
      if |targets| < MinTargets { consolidated := false; } else if insight == "" { consolidated := false; }
    }
    audit := Audit(consolidated, targets, insight);
  }

  lemma InsightKept(text: string)
    ensures TrimText(text, InsightLimit) == "" <==> Blank(text)
    ensures |TrimText(text, InsightLimit)| <= InsightLimit
    ensures |Strip(text)| <= 1800 ==> TrimText(text, InsightLimit) == Strip(text)
    ensures |Strip(text)| > 1800 ==>
      exists kept :: TrimText(text, InsightLimit) == kept + "... [truncated]" && IsFront(kept, Strip(text), 1780)
  {
    StripBlank(text);
    if |Strip(text)| > 1800 {
      StripRightShape(Strip(text)[..1780]);
      StripRightDrops(Strip(text)[..1780]);
      assert IsFront(StripRight(Strip(text)[..1780]), Strip(text), 1780);
    }
  }

  // The first n characters, without the whitespace they end in.
  ghost predicate IsFront(kept: string, text: string, n: nat) {
    && n <= |text| && |kept| <= n && kept <= text
    && (kept != "" ==> !IsSpace(kept[|kept| - 1]))
    && forall i | |kept| <= i < n :: IsSpace(text[i])
  }

  lemma {:induction false} StripRightDrops(s: string)
    ensures StripRight(s) <= s && forall i | |StripRight(s)| <= i < |s| :: IsSpace(s[i])
  {
    if s != "" && IsSpace(s[|s| - 1]) { StripRightDrops(s[..|s| - 1]); }
  }

  // A normalized audit names known records only, each once, under the name the list would keep.
  lemma AuditNamesKnown(raw: RawAudit, records: seq<Record>)
    ensures NoRepeats(AuditTargets(raw, records)) && "" !in AuditTargets(raw, records)
    ensures forall t <- AuditTargets(raw, records) :: t in KnownIds(records) && Strip(t) == t
  {
    var names, keep := Texts(RawItems(raw.targets)), (t: string) => t in KnownIds(records);
    DistinctHasNoRepeats(names);
    FilterNoRepeats(StringList(raw.targets), keep);
    forall t ensures t in AuditTargets(raw, records) ==> t in KnownIds(records) && Strip(t) == t && t != "" {
      FilterKeeps(StringList(raw.targets), keep, t);
      DistinctIff(names, t);
      TextsAreStripped(RawItems(raw.targets), t);
    }
  }

  lemma {:induction false} TextsAreStripped(items: seq<Value>, t: string)
    ensures t in Texts(items) ==> Strip(t) == t
  {
    if items != [] {
      TextsAreStripped(items[..|items| - 1], t);
      StripIsIdempotent(TextOrEmpty(items[|items| - 1]));
    }
  }

  // ---------------------------------------------------------------- from names to points

  function PointIds(records: seq<Record>): set<string> { set r <- records :: r.pointId }

  // The point of the last record with that source id.
  function PointBySource(records: seq<Record>, name: string): string {
    if records == [] then ""
    else if records[|records| - 1].sourceId == name then records[|records| - 1].pointId
    else PointBySource(records[..|records| - 1], name)
  }

  // The point a name stands for; the empty text when there is none.
  function PointOf(name: string, records: seq<Record>): string {
    if name != "" && name in PointIds(records) then name else PointBySource(records, name)
  }

  function PointsOf(names: seq<string>, records: seq<Record>): seq<string> {
    if names == [] then [] else PointsOf(names[..|names| - 1], records) + [PointOf(names[|names| - 1], records)]
  }

  datatype Resolution = Resolved(ids: seq<string>) | UnresolvedIds | TooFew

  function Resolve(names: seq<string>, records: seq<Record>): Resolution {
    var points := PointsOf(names, records);
    if "" in points then UnresolvedIds
    else if |Distinct(points)| < MinTargets then TooFew
    else Resolved(Distinct(points))
  }

  method ResolveTargetPointIds(names: seq<string>, records: seq<Record>) returns (r: Resolution)
    ensures r == Resolve(names, records)
  {
    var resolved: seq<string>, unresolved: seq<string> := [], [];
    for i := 0 to |names|
      invariant resolved == Distinct(PointsOf(names[..i], records))
      invariant unresolved != [] <==> "" in PointsOf(names[..i], records)
    {
      assert names[..i + 1][..i] == names[..i];
      var point := PointOf(names[i], records);
      DistinctNext(PointsOf(names[..i], records), point);
      if point != "" {
        if point !in resolved { resolved := resolved + [point]; }
      } else {
        unresolved := unresolved + [names[i]];
      }
    }
    assert names[..|names|] == names;
    if unresolved != [] { return UnresolvedIds; }
    if |resolved| < MinTargets { return TooFew; }
    return Resolved(resolved);
  }

  lemma {:induction false} PointsOfLength(names: seq<string>, records: seq<Record>)
    ensures |PointsOf(names, records)| == |names|
  {
    if names != [] { PointsOfLength(names[..|names| - 1], records); }
  }

  lemma {:induction false} PointAt(names: seq<string>, records: seq<Record>, i: nat)
    requires i < |names|
    ensures i < |PointsOf(names, records)| && PointsOf(names, records)[i] == PointOf(names[i], records)
    decreases |names|
  {
    var init := names[..|names| - 1];
    PointsOfLength(init, records);
    if i < |init| { PointAt(init, records, i); }
  }

  lemma PointsOfAt(names: seq<string>, records: seq<Record>)
    ensures |PointsOf(names, records)| == |names|
    ensures forall i | 0 <= i < |names| :: PointsOf(names, records)[i] == PointOf(names[i], records)
  {
    PointsOfLength(names, records);
    forall i | 0 <= i < |names| ensures PointsOf(names, records)[i] == PointOf(names[i], records) {
      PointAt(names, records, i);
    }
  }

  // A record is known under a name by its point id or by its source id.
  ghost predicate NamedBy(r: Record, name: string, id: string) {
    r.pointId == id && (name == r.pointId || name == r.sourceId)
  }

  lemma {:induction false} PointBySourceNames(records: seq<Record>, name: string)
    ensures (exists r <- records :: r.sourceId == name) ==>
      exists r <- records :: NamedBy(r, name, PointBySource(records, name))
    ensures (forall r <- records :: r.sourceId != name) ==> PointBySource(records, name) == ""
  {
    if records != [] {
      var init, last := records[..|records| - 1], records[|records| - 1];
      PointBySourceNames(init, name);
      assert records == init + [last];
      if last.sourceId == name {
        assert NamedBy(last, name, last.pointId) && last in records;
      } else if r :| r in records && r.sourceId == name {
        assert r in init;
        var q :| q in init && NamedBy(q, name, PointBySource(init, name));
        assert q in records;
      }
    }
  }

  lemma PointOfNames(name: string, records: seq<Record>)
    ensures PointOf(name, records) != "" ==> exists r <- records :: NamedBy(r, name, PointOf(name, records))
    ensures HaveIds(records) && name in KnownIds(records) ==> PointOf(name, records) != ""
  {
    PointBySourceNames(records, name);
    assert HaveIds(records) ==> "" !in PointIds(records);
    if name != "" && name in PointIds(records) {
      var r :| r in records && r.pointId == name;
      assert NamedBy(r, name, name);
    }
  }

  // What the commit is given: the normalized targets, as a list of texts.
  function Named(targets: seq<string>): RawList {
    Many(Strs(targets))
  }

  function Strs(texts: seq<string>): seq<Value> {
    if texts == [] then [] else Strs(texts[..|texts| - 1]) + [Str(texts[|texts| - 1])]
  }

  lemma TextsSnoc(items: seq<Value>, v: Value)
    ensures Texts(items + [v]) == Texts(items) + [Strip(TextOrEmpty(v))]
  {
    assert (items + [v])[..|items|] == items;
  }

  predicate AllStripped(texts: seq<string>) { forall t <- texts :: Strip(t) == t }

  lemma InitStripped(texts: seq<string>)
    requires texts != [] && AllStripped(texts)
    ensures AllStripped(texts[..|texts| - 1]) && Strip(texts[|texts| - 1]) == texts[|texts| - 1]
  {
    assert forall t <- texts[..|texts| - 1] :: t in texts;
  }

  lemma {:induction false} TextsOfNamed(targets: seq<string>)
    requires AllStripped(targets)
    ensures Texts(Strs(targets)) == targets
  {
    if targets != [] {
      var init, last := targets[..|targets| - 1], targets[|targets| - 1];
      InitStripped(targets);
      TextsOfNamed(init);
      TextsSnoc(Strs(init), Str(last));
      assert targets == init + [last];
    }
  }

  lemma EveryNameResolves(names: seq<string>, records: seq<Record>)
    requires HaveIds(records) && forall name <- names :: name in KnownIds(records)
    ensures "" !in PointsOf(names, records)
  {
    PointsOfAt(names, records);
    var points := PointsOf(names, records);
    if i :| 0 <= i < |points| && points[i] == "" {
      assert names[i] in names;
      PointOfNames(names[i], records);
    }
  }

  lemma NamedAgain(names: seq<string>)
    requires NoRepeats(names) && "" !in names && AllStripped(names)
    ensures StringList(Named(names)) == names
  {
    TextsOfNamed(names);
    DistinctKeepsDistinct(names);
  }

  // Normalizing twice changes nothing, and every name then resolves: the branch for unresolved ids
  // is never taken after an audit.
  lemma NormalizedAlwaysResolves(raw: RawAudit, records: seq<Record>)
    requires HaveIds(records)
    ensures StringList(Named(AuditTargets(raw, records))) == AuditTargets(raw, records)
    ensures Resolve(AuditTargets(raw, records), records) != UnresolvedIds
  {
    AuditNamesKnown(raw, records);
    NamedAgain(AuditTargets(raw, records));
    EveryNameResolves(AuditTargets(raw, records), records);
  }

  // Resolved points are at least two, all different, and each is a record that some name stands for.
  lemma ResolvedAreNamed(names: seq<string>, records: seq<Record>, id: string)
    requires Resolve(names, records).Resolved? && id in Resolve(names, records).ids
    ensures |Resolve(names, records).ids| >= MinTargets && NoRepeats(Resolve(names, records).ids)
    ensures exists name <- names, r <- records :: NamedBy(r, name, id)
  {
    var points := PointsOf(names, records);
    DistinctHasNoRepeats(points);
    DistinctIff(points, id);
    PointsOfAt(names, records);
    var i :| 0 <= i < |points| && points[i] == id;
    PointOfNames(names[i], records);
    var r :| r in records && NamedBy(r, names[i], id);
    assert names[i] in names;
  }

  predicate AllAre(points: seq<string>, point: string) { forall p <- points :: p == point }

  predicate NameOnePoint(names: seq<string>, records: seq<Record>) {
    forall name <- names :: PointOf(name, records) == PointOf(names[0], records)
  }

  lemma AllAreIff(points: seq<string>, names: seq<string>, records: seq<Record>)
    requires names != [] && |points| == |names|
    requires forall i | 0 <= i < |names| :: points[i] == PointOf(names[i], records)
    ensures AllAre(points, points[0]) <==> NameOnePoint(names, records)
  {
    if AllAre(points, points[0]) {
      forall name | name in names ensures PointOf(name, records) == points[0] {
        var i :| 0 <= i < |names| && names[i] == name;
        assert points[i] in points;
      }
    }
  }

  // An accepted audit still fails here exactly when its names all stand for one point.
  lemma TooFewIffOnePoint(raw: RawAudit, records: seq<Record>)
    requires HaveIds(records) && NormalizedAudit(raw, records).consolidated
    ensures var targets := AuditTargets(raw, records);
      Resolve(targets, records) == TooFew <==> NameOnePoint(targets, records)
  {
    var targets := AuditTargets(raw, records);
    PointsOfAt(targets, records);
    AllAreIff(PointsOf(targets, records), targets, records);
    NormalizedAlwaysResolves(raw, records);
    OneDistinctIff(PointsOf(targets, records));
  }

  lemma OneDistinctIff(points: seq<string>)
    requires points != [] && "" !in points
    ensures |Distinct(points)| < 2 <==> AllAre(points, points[0])
  {
    var d := Distinct(points);
    if |d| < 2 {
      DistinctIff(points, points[0]);
      forall p | p in points ensures p == points[0] { DistinctIff(points, p); }
    } else {
      DistinctHasNoRepeats(points);
      DistinctIff(points, d[0]);
      DistinctIff(points, d[1]);
    }
  }

  // ---------------------------------------------------------------- reading the targets again

  datatype Fault = UnresolvedTargets | TooFewTargets | ScopeChanged | WriteFailed | NotCovered | ReadFailed
                 | Disappeared | CrossedProject(id: string) | ChangedAfterAudit(id: string) | DeleteFailed

  // The audited record of a point: the last one with its id.
  function Audited(records: seq<Record>, id: string): Option<Record> {
    if records == [] then None
    else if records[|records| - 1].pointId == id then Some(records[|records| - 1])
    else Audited(records[..|records| - 1], id)
  }

  lemma {:induction false} AuditedIff(records: seq<Record>, id: string)
    ensures Audited(records, id).Some? <==> id in PointIds(records)
    ensures Audited(records, id).Some? ==>
      Audited(records, id).value in records && Audited(records, id).value.pointId == id
  {
    if records != [] {
      AuditedIff(records[..|records| - 1], id);
      assert records == records[..|records| - 1] + [records[|records| - 1]];
    }
  }

  // A target passes when it is still in scope and its payload is the audited one.
  predicate Unchanged(read: Store, records: seq<Record>, scope: string, id: string) {
    && id in read && Audited(records, id).Some?
    && ScopeOf(read[id]) == scope && read[id] == Audited(records, id).value.payload
  }

  predicate AllUnchanged(read: Store, ids: seq<string>, records: seq<Record>, scope: string) {
    forall id <- ids :: Unchanged(read, records, scope, id)
  }

  function TargetFault(p: Payload, r: Record, scope: string): Option<Fault> {
    if ScopeOf(p) != scope then Some(CrossedProject(r.pointId))
    else if p != r.payload then Some(ChangedAfterAudit(r.pointId))
    else None
  }

  predicate IsRereadFault(f: Fault) {
    f.NotCovered? || f.ReadFailed? || f.Disappeared? || f.CrossedProject? || f.ChangedAfterAudit?
  }

  // _revalidate_delete_targets; no store read means the read failed.
  method RevalidateDeleteTargets(read: Option<Store>, ids: seq<string>, records: seq<Record>, project: string)
    returns (fault: Option<Fault>)
    ensures fault == None <==> read.Some? && AllUnchanged(read.value, ids, records, CanonicalName(project))
    ensures fault == Some(NotCovered) <==> !(forall id <- ids :: id in PointIds(records))
    ensures fault.Some? ==> IsRereadFault(fault.value)
    ensures fault.Some? && fault.value.CrossedProject? ==>
      (read.Some? && fault.value.id in read.value
       && ScopeOf(read.value[fault.value.id]) != CanonicalName(project))
    ensures fault.Some? && fault.value.ChangedAfterAudit? ==>
      (read.Some? && fault.value.id in read.value && Audited(records, fault.value.id).Some?
       && read.value[fault.value.id] != Audited(records, fault.value.id).value.payload)
  {
    if exists id <- ids :: id !in PointIds(records) {
      ghost var id :| id in ids && id !in PointIds(records);
      AuditedIff(records, id);
      return Some(NotCovered);
    }
    if read.None? { return Some(ReadFailed); }
    if exists id <- ids :: id !in read.value { return Some(Disappeared); }
    var scope := CanonicalName(project);
    for i := 0 to |ids|
      invariant forall j | 0 <= j < i :: Unchanged(read.value, records, scope, ids[j])
    {
      AuditedIff(records, ids[i]);
      fault := TargetFault(read.value[ids[i]], Audited(records, ids[i]).value, scope);
      if fault.Some? {
        assert ids[i] in ids && !Unchanged(read.value, records, scope, ids[i]);
        return;
      }
    }
    return None;
  }

  // ---------------------------------------------------------------- the commit

  // The delete selector: a named id whose project field is literally the scope.
  predicate Selected(store: Store, ids: seq<string>, scope: string, id: string) {
    id in store && id in ids && Get(store[id], "project") == Str(scope)
  }

  function Deleted(store: Store, ids: seq<string>, scope: string): Store {
    map id | id in store && !Selected(store, ids, scope, id) :: store[id]
  }

  function CrystalPayload(scope: string, content: string): Payload {
    map["project" := Str(scope), "data" := Str(content)]
  }

  /** The answer to the delete call: heard, or an error raised before or after it took effect. */
  datatype Reply = Heard | LostBefore | LostAfter

  /** What becomes of the call that adds the crystal: it raises, stores the crystal, or returns without
      having stored anything; the ids it returns are not looked at. */
  datatype Addition = Raises | Stores | StoresNothing

  /** What is not the commit's own doing: how its calls go, the id its crystal gets, and what the other
      writers make of the store after the write and after the read. */
  datatype World = World(addition: Addition, crystalId: string, afterWrite: Store -> Store,
                         readOk: bool, afterRead: Store -> Store, reply: Reply)

  datatype CommitResult = Refused(fault: Fault) | Committed(deleted: seq<string>)

  /** The delete call of a commit: what was read to validate it, the store it met, its ids. */
  datatype DeleteCall = DeleteCall(read: Store, met: Store, ids: seq<string>)

  function AfterCall(call: DeleteCall, scope: string, reply: Reply): Store {
    if reply == LostBefore then call.met else Deleted(call.met, call.ids, scope)
  }

  class GlobalCore {
    var points: Store

    constructor (points: Store)
      ensures this.points == points
    {
      this.points := points;
    }

    method Add(id: string, p: Payload)
      modifies this
      ensures points == old(points)[id := p]
    {
      points := points[id := p];
    }

    method Delete(ids: seq<string>, scope: string)
      modifies this
      ensures points == Deleted(old(points), ids, scope)
      ensures forall id <- old(points).Keys ::
        && (id !in points <==> id in ids && Get(old(points)[id], "project") == Str(scope))
        && (id in points ==> points[id] == old(points)[id])
      ensures points.Keys <= old(points).Keys
    {
      points := Deleted(points, ids, scope);
    }

    method OtherWriters(step: Store -> Store)
      modifies this
      ensures points == step(old(points))
    {
      points := step(points);
    }
  }

  // The store when the targets are read again.
  function ReadBack(start: Store, scope: string, content: string, w: World): Store {
    w.afterWrite(if w.addition == Stores then start[w.crystalId := CrystalPayload(scope, content)] else start)
  }

  // The commit gets as far as writing its crystal.
  predicate MayWrite(names: seq<string>, records: seq<Record>, scope: string) {
    Resolve(names, records).Resolved? && forall r <- records :: r.project == scope
  }

  // It gets as far as the delete call.
  predicate MayDelete(start: Store, names: seq<string>, content: string, records: seq<Record>, scope: string,
                      w: World) {
    && MayWrite(names, records, scope) && w.addition != Raises && w.readOk
    && AllUnchanged(ReadBack(start, scope, content, w), Resolve(names, records).ids, records, scope)
  }

  function CallOf(start: Store, names: seq<string>, content: string, records: seq<Record>, scope: string,
                  w: World): DeleteCall
    requires MayDelete(start, names, content, records, scope, w)
  {
    var read := ReadBack(start, scope, content, w);
    DeleteCall(read, w.afterRead(read), Resolve(names, records).ids)
  }

  // The store that a commit leaves when it does not get as far as the delete call.
  function AfterRefusal(start: Store, names: seq<string>, content: string, records: seq<Record>, scope: string,
                        w: World): Store {
    if MayWrite(names, records, scope) && w.addition != Raises then ReadBack(start, scope, content, w) else start
  }

  // commit_consolidation
  method CommitConsolidation(core: GlobalCore, targets: RawList, content: string, records: seq<Record>, project: string,
                             w: World)
    returns (r: CommitResult)
    modifies core
    ensures var start, names, scope := old(core.points), StringList(targets), CanonicalName(project);
      if MayDelete(start, names, content, records, scope, w) then
        var call := CallOf(start, names, content, records, scope, w);
        && core.points == AfterCall(call, scope, w.reply)
        && r == if w.reply == Heard then Committed(call.ids) else Refused(DeleteFailed)
      else
        && r.Refused?
        && core.points == AfterRefusal(start, names, content, records, scope, w)
    ensures r == Refused(UnresolvedTargets) <==> Resolve(StringList(targets), records) == UnresolvedIds
    ensures r == Refused(TooFewTargets) <==> Resolve(StringList(targets), records) == TooFew
    ensures r == Refused(ScopeChanged) ==> exists q <- records :: q.project != CanonicalName(project)
    ensures r == Refused(WriteFailed) <==>
      MayWrite(StringList(targets), records, CanonicalName(project)) && w.addition == Raises
    ensures r == Refused(NotCovered) ==>
      Resolve(StringList(targets), records).Resolved?
      && exists id <- Resolve(StringList(targets), records).ids :: id !in PointIds(records)
  {
    var names := NormalizeStringList(targets);
    var resolution := ResolveTargetPointIds(names, records);
    if resolution == UnresolvedIds { return Refused(UnresolvedTargets); }
    if resolution == TooFew { return Refused(TooFewTargets); }
    var scope := CanonicalName(project);
    CanonicalIsIdempotent(project);
    if exists q <- records :: q.project != scope { return Refused(ScopeChanged); }
    if w.addition == Raises { return Refused(WriteFailed); }
    if w.addition == Stores { core.Add(w.crystalId, CrystalPayload(scope, content)); }
    core.OtherWriters(w.afterWrite);
    r := DeleteQdrantPoints(core, resolution.ids, records, scope, w);
  }

  // delete_qdrant_points
  method DeleteQdrantPoints(core: GlobalCore, ids: seq<string>, records: seq<Record>, project: string, w: World)
    returns (r: CommitResult)
    modifies core
    ensures var read, scope := old(core.points), CanonicalName(project);
      if w.readOk && AllUnchanged(read, ids, records, scope) then
        && core.points == AfterCall(DeleteCall(read, w.afterRead(read), ids), scope, w.reply)
        && r == if w.reply == Heard then Committed(ids) else Refused(DeleteFailed)
      else
        core.points == read && r.Refused? && IsRereadFault(r.fault)
    ensures r == Refused(NotCovered) ==> exists id <- ids :: id !in PointIds(records)
  {
    var fault := RevalidateDeleteTargets(if w.readOk then Some(core.points) else None, ids, records, project);
    if fault.Some? { return Refused(fault.value); }
    core.OtherWriters(w.afterRead);
    if w.reply == LostBefore { return Refused(DeleteFailed); }
    core.Delete(ids, CanonicalName(project));
    if w.reply == LostAfter { return Refused(DeleteFailed); }
    r := Committed(ids);
  }

  // ---------------------------------------------------------------- what a commit can delete

  // Whatever the other writers do: a deleted point is one of at least two different audited ones,
  // was named by the audit, was read back with its audited payload in scope after the crystal was
  // written, and was in scope when it was deleted.  Every other point stays as it was met.
  lemma DeletionIsGuarded(start: Store, names: seq<string>, content: string, records: seq<Record>, scope: string,
                          w: World, call: DeleteCall, id: string)
    requires MayDelete(start, names, content, records, scope, w)
    requires call == CallOf(start, names, content, records, scope, w)
    ensures w.addition != Raises && call.read == ReadBack(start, scope, content, w)
    ensures |call.ids| >= MinTargets && NoRepeats(call.ids)
    ensures id in call.met && id !in Deleted(call.met, call.ids, scope) ==>
      && Get(call.met[id], "project") == Str(scope)
      && (exists name <- names, r <- records :: NamedBy(r, name, id))
      && id in call.read && ScopeOf(call.read[id]) == scope
      && exists r <- records :: r.pointId == id && r.payload == call.read[id]
    ensures id in call.met && id !in call.ids ==>
      id in Deleted(call.met, call.ids, scope) && Deleted(call.met, call.ids, scope)[id] == call.met[id]
  {
    ResolvedAreNamed(names, records, call.ids[0]);
    if id in call.met && id !in Deleted(call.met, call.ids, scope) {
      ResolvedAreNamed(names, records, id);
      assert Unchanged(call.read, records, scope, id);
      AuditedIff(records, id);
    }
  }

  // A record as the scan makes it for a scope.
  predicate Scanned(r: Record, scope: string) {
    r == RecordOf(r.pointId, r.payload) && r.project == scope && r.pointId != "" && IsCandidate(r.payload)
  }

  predicate HasTextProject(p: Payload) { Get(p, "project").Str? && Get(p, "project").s != "" }

  lemma SelectorMatchesIff(r: Record, scope: string)
    requires Scanned(r, scope) && scope != ""
    ensures Get(r.payload, "project") == Str(scope) <==> HasTextProject(r.payload)
  {
  }

  // With nobody writing between the read and the delete, the reported points are all gone exactly
  // when each had a project written in its payload; a point that only defaults to the scope passes
  // the validation, is reported, and stays.
  lemma ReportIsTrueIff(read: Store, ids: seq<string>, records: seq<Record>, scope: string)
    requires scope != "" && forall r <- records :: Scanned(r, scope)
    requires AllUnchanged(read, ids, records, scope)
    ensures (forall id <- ids :: id !in Deleted(read, ids, scope)) <==> forall id <- ids :: HasTextProject(read[id])
  {
    forall id | id in ids ensures id in Deleted(read, ids, scope) <==> !HasTextProject(read[id]) {
      assert Unchanged(read, records, scope, id);
      AuditedIff(records, id);
      SelectorMatchesIff(Audited(records, id).value, scope);
    }
  }

  // The records of a scan name each point once.
  function PointIdOf(r: Record): string { r.pointId }

  // The point is gone with a payload that was not the audited one.
  ghost predicate LosesUnaudited(call: DeleteCall, after: Store, records: seq<Record>, id: string) {
    && id in call.met && id !in after
    && forall r <- records | r.pointId == id :: r.payload != call.met[id]
  }

  // Validation is not atomic with the delete.  Whatever the other writers do, a commit deletes a payload
  // that was never audited exactly when the delete takes effect and one of its targets was edited after
  // it was read back, with a project that is still literally the scope.
  lemma LateEditIsLost(start: Store, names: seq<string>, content: string, records: seq<Record>, scope: string, w: World,
                       id: string)
    requires MayDelete(start, names, content, records, scope, w) && DistinctBy(records, PointIdOf)
    ensures var call := CallOf(start, names, content, records, scope, w);
      LosesUnaudited(call, AfterCall(call, scope, w.reply), records, id) <==>
        (w.reply != LostBefore && id in call.ids && id in call.met && id in call.read
         && call.met[id] != call.read[id] && Get(call.met[id], "project") == Str(scope))
  {
    var call := CallOf(start, names, content, records, scope, w);
    if id in call.ids {
      assert Unchanged(call.read, records, scope, id);
      AuditedIff(records, id);
      OneRecordEach(records, Audited(records, id).value);
    }
  }

  lemma OneRecordEach(records: seq<Record>, r: Record)
    requires DistinctBy(records, PointIdOf) && r in records
    ensures forall q <- records :: q.pointId == r.pointId ==> q == r
  {
    forall q | q in records && q.pointId == r.pointId ensures q == r {
      var i :| 0 <= i < |records| && records[i] == q;
      var j :| 0 <= j < |records| && records[j] == r;
      assert i < j ==> PointIdOf(records[i]) != PointIdOf(records[j]);
      assert j < i ==> PointIdOf(records[j]) != PointIdOf(records[i]);
    }
  }

  // With nobody else writing, the crystal is there once the targets are deleted exactly when the call that
  // was to add it stored it; a call that returns without storing leads to the delete all the same.
  lemma CrystalIsThereIff(start: Store, names: seq<string>, content: string, records: seq<Record>, scope: string,
                          w: World)
    requires MayDelete(start, names, content, records, scope, w)
    requires w.crystalId !in start && w.crystalId !in PointIds(records)
    requires forall m :: w.afterWrite(m) == m && w.afterRead(m) == m
    ensures var after := AfterCall(CallOf(start, names, content, records, scope, w), scope, w.reply);
      && (w.crystalId in after <==> w.addition == Stores)
      && (w.crystalId in after ==>
            Get(after[w.crystalId], "data") == Str(content) && Get(after[w.crystalId], "project") == Str(scope))
  {
    var ids := Resolve(names, records).ids;
    if w.crystalId in ids {
      ResolvedAreNamed(names, records, w.crystalId);
    }
  }

  lemma ResolveToThemselves(names: seq<string>, records: seq<Record>)
    requires NoRepeats(names) && |names| >= 2 && forall name <- names :: name != "" && name in PointIds(records)
    ensures Resolve(names, records) == Resolved(names)
  {
    PointsOfAt(names, records);
    forall i | 0 <= i < |names| ensures PointsOf(names, records)[i] == names[i] { assert names[i] in names; }
    assert PointsOf(names, records) == names;
    DistinctKeepsDistinct(names);
  }

  lemma TwoNames(raw: RawAudit, records: seq<Record>, names: seq<string>)
    requires raw == RawAudit("CONSOLIDATED", Named(names), "x")
    requires |names| >= 2 && NoRepeats(names) && "" !in names
    requires AllStripped(names) && forall name <- names :: name in KnownIds(records)
    ensures AuditTargets(raw, records) == names && NormalizedAudit(raw, records).consolidated
  {
    NamedAgain(names);
    FilterAll(names, (t: string) => t in KnownIds(records));
    ShortInsight();
  }

  lemma ShortInsight()
    ensures TrimText("x", InsightLimit) == "x"
  {
    StripVisible("x");
  }

  // ---------------------------------------------------------------- a cycle

  datatype CycleResult = Skipped | NoChanges | WouldConsolidate(count: nat) | Ran(commit: CommitResult)

  // run_reflection_cycle, from the records its scan chose and the model's answer, if there was one.
  // A dry run changes nothing; a commit is never refused for its names, its scope or its coverage.
  method RunReflectionCycle(core: GlobalCore, project: string, dryRun: bool, records: seq<Record>,
                            answer: Option<RawAudit>, content: string, w: World)
    returns (r: CycleResult)
    requires forall q <- records :: Scanned(q, CanonicalName(project))
    modifies core
    ensures r.Ran? <==> !dryRun && |records| >= 2 && answer.Some? && NormalizedAudit(answer.value, records).consolidated
    ensures !r.Ran? ==> core.points == old(core.points)
    ensures r.Ran? && r.commit.Refused? ==>
      r.commit.fault != UnresolvedTargets && r.commit.fault != ScopeChanged && r.commit.fault != NotCovered
    ensures r.Ran? ==>
      (r.commit == Refused(TooFewTargets) <==> NameOnePoint(AuditTargets(answer.value, records), records))
    ensures r.Ran? ==>
      var start, names, scope := old(core.points), AuditTargets(answer.value, records), CanonicalName(project);
      if MayDelete(start, names, content, records, scope, w) then
        var call := CallOf(start, names, content, records, scope, w);
        && core.points == AfterCall(call, scope, w.reply)
        && r.commit == if w.reply == Heard then Committed(call.ids) else Refused(DeleteFailed)
      else
        && r.commit.Refused?
        && core.points == AfterRefusal(start, names, content, records, scope, w)
  {
    if |records| < MinTargets { return Skipped; }
    if answer.None? { return NoChanges; }
    var audit := NormalizeAuditResult(answer.value, records);
    if !audit.consolidated { return NoChanges; }
    if dryRun { return WouldConsolidate(|audit.targets|); }
    NormalizedAlwaysResolves(answer.value, records);
    TooFewIffOnePoint(answer.value, records);
    CanonicalIsIdempotent(project);
    var commit := CommitConsolidation(core, Named(audit.targets), content, records, CanonicalName(project), w);
    if commit == Refused(NotCovered) {
      var id :| id in Resolve(audit.targets, records).ids && id !in PointIds(records);
      ResolvedAreNamed(audit.targets, records, id);
      assert false;
    }
    r := Ran(commit);
  }
}
