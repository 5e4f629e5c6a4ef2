/** The graph healer (scripts/bhm_graph_healer.py): find the vector points the semantic graph does
    not mention, ask for their neighbours, and plan typed links from them.  Timestamps are integers
    on one time line; a point without a usable one has the epoch, 0. */
module GraphHealer {
  import opened Text
  import opened Payloads
  import opened Seqs

  // ---------------------------------------------------------------- points and aliases

  /** The payload fields that name a point; a missing field is the empty text. */
  datatype Fields = Fields(sourceId: string, id: string, hitId: string,
                           mem0Ids: seq<string>, globalIds: seq<string>, time: int)

  datatype HealerPoint = HealerPoint(collection: string, pointId: string, nodeId: string,
                                     aliases: set<string>, time: int)

  function NonBlank(texts: seq<string>): set<string> {
    set t <- texts | Strip(t) != "" :: Strip(t)
  }

  function PointAliases(pointId: string, f: Fields): set<string> {
    NonBlank([pointId, f.sourceId, f.id, f.hitId] + f.mem0Ids + f.globalIds)
  }

  function NodeId(pointId: string, f: Fields): string {
    if Strip(f.sourceId) != "" then Strip(f.sourceId)
    else if Strip(f.id) != "" then Strip(f.id)
    else pointId
  }

  // point_from_qdrant, for a point that has a vector.
  function PointFrom(collection: string, rawId: string, f: Fields): Option<HealerPoint> {
    var pointId := Strip(rawId);
    if pointId == "" then None
    else Some(HealerPoint(collection, pointId, NodeId(pointId, f), PointAliases(pointId, f), f.time))
  }

  // A point knows itself by its node id, and nothing by a blank one.
  predicate WellNamed(p: HealerPoint) { p.nodeId in p.aliases && "" !in p.aliases }

  // The text without surrounding whitespace is one of the fields that name a point, or its own id.
  ghost predicate Names(pointId: string, f: Fields, a: string) {
    || a == Strip(pointId) || a == Strip(f.sourceId) || a == Strip(f.id) || a == Strip(f.hitId)
    || (exists t <- f.mem0Ids :: a == Strip(t))
    || (exists t <- f.globalIds :: a == Strip(t))
  }

  // The point of an id and its fields: all that names it and is not blank is an alias, and the first of source
  // id, id and its own id that is not blank is its node.
  ghost predicate IsPoint(collection: string, pointId: string, f: Fields, p: HealerPoint) {
    && p.collection == collection && p.pointId == pointId && p.time == f.time
    && (forall a :: a in p.aliases <==> a != "" && Names(pointId, f, a))
    && (if Strip(f.sourceId) != "" then p.nodeId == Strip(f.sourceId)
        else if Strip(f.id) != "" then p.nodeId == Strip(f.id)
        else p.nodeId == pointId)
  }

  lemma PointsAreWellNamed(collection: string, rawId: string, f: Fields)
    ensures var p := PointFrom(collection, rawId, f);
      && (p == None <==> Strip(rawId) == "")
      && (p.Some? ==> WellNamed(p.value) && IsPoint(collection, Strip(rawId), f, p.value))
  {
    StripIsIdempotent(rawId);
    forall a ensures a in PointAliases(Strip(rawId), f) <==> a != "" && Names(Strip(rawId), f, a) {
      AliasIff(Strip(rawId), f, a);
    }
  }

  lemma AliasIff(pointId: string, f: Fields, a: string)
    ensures a in PointAliases(pointId, f) <==> a != "" && Names(pointId, f, a)
  {
    var own := [pointId, f.sourceId, f.id, f.hitId];
    var texts := own + f.mem0Ids + f.globalIds;
    assert forall t :: t in texts <==> t in own || t in f.mem0Ids || t in f.globalIds;
    assert own[0] in own && own[1] in own && own[2] in own && own[3] in own;
    assert a in NonBlank(texts) <==> a != "" && exists t <- texts :: a == Strip(t);
  }

  lemma PointIsOne(collection: string, rawId: string, f: Fields, p: HealerPoint)
    requires Strip(rawId) != ""
    ensures PointFrom(collection, rawId, f) == Some(p) <==> IsPoint(collection, Strip(rawId), f, p)
  {
    PointsAreWellNamed(collection, rawId, f);
    var own := PointFrom(collection, rawId, f).value;
    if IsPoint(collection, Strip(rawId), f, p) { assert own.aliases == p.aliases; }
  }

  // ---------------------------------------------------------------- the graph

  datatype EdgeKind = UPGRADES | DEPENDS_ON | OTHER(name: string)

  datatype Link = Link(target: string, kind: EdgeKind)

  type Graph = map<string, seq<Link>>

  datatype EdgeKey = EdgeKey(source: string, target: string, kind: EdgeKind)

  // graph_mentioned_ids
  function Mentioned(graph: Graph): set<string> {
    (set s <- graph.Keys | Strip(s) != "" :: Strip(s))
    + (set s <- graph.Keys, l <- graph[s] | Strip(l.target) != "" :: Strip(l.target))
  }

  // graph_edge_keys
  function EdgeKeys(graph: Graph): set<EdgeKey> {
    set s <- graph.Keys, l <- graph[s] | Strip(s) != "" && Strip(l.target) != "" && l.kind != OTHER("") ::
      EdgeKey(Strip(s), Strip(l.target), l.kind)
  }

  lemma EdgesStartAtMentioned(graph: Graph, key: EdgeKey)
    requires key in EdgeKeys(graph)
    ensures key.source in Mentioned(graph)
  {
  }

  // discover_orphans
  function Orphans(points: seq<HealerPoint>, graph: Graph): seq<HealerPoint> {
    if points == [] then []
    else
      var rest, last := Orphans(points[..|points| - 1], graph), points[|points| - 1];
      if Mentioned(graph) * last.aliases == {} then rest + [last] else rest
  }

  lemma {:induction false} OrphanWithout(points: seq<HealerPoint>, graph: Graph, p: HealerPoint)
    ensures p in Orphans(points, graph) <==> p in points && Mentioned(graph) * p.aliases == {}
  {
    if points != [] {
      OrphanWithout(points[..|points| - 1], graph, p);
      assert points == points[..|points| - 1] + [points[|points| - 1]];
    }
  }

  // The graph knows the point by none of its aliases: neither as a node with links, nor as the target of one.
  ghost predicate Unmentioned(graph: Graph, p: HealerPoint) {
    forall s <- graph.Keys :: Strip(s) !in p.aliases && forall l <- graph[s] :: Strip(l.target) !in p.aliases
  }

  lemma UnmentionedIff(graph: Graph, p: HealerPoint)
    requires "" !in p.aliases
    ensures Mentioned(graph) * p.aliases == {} <==> Unmentioned(graph, p)
  {
    var m := Mentioned(graph);
    if id :| id in m && id in p.aliases {
      MentionedIff(graph, id);
      var s :| s in graph && Bears(graph, s, id);
      assert !Unmentioned(graph, p);
    }
    if !Unmentioned(graph, p) {
      var s :| s in graph && !(Strip(s) !in p.aliases && forall l <- graph[s] :: Strip(l.target) !in p.aliases);
      var id := if Strip(s) in p.aliases then Strip(s) else AliasTarget(graph[s], p);
      assert Bears(graph, s, id);
      MentionedIff(graph, id);
      assert id in m * p.aliases;
    }
  }

  ghost function AliasTarget(links: seq<Link>, p: HealerPoint): (id: string)
    requires exists l <- links :: Strip(l.target) in p.aliases
    ensures id in p.aliases && exists l <- links :: Strip(l.target) == id
  {
    var l :| l in links && Strip(l.target) in p.aliases;
    Strip(l.target)
  }

  // The node has the id, or links to it.
  ghost predicate Bears(graph: Graph, s: string, id: string)
    requires s in graph
  {
    Strip(s) == id || exists l <- graph[s] :: Strip(l.target) == id
  }

  lemma MentionedIff(graph: Graph, id: string)
    ensures id in Mentioned(graph) <==> id != "" && exists s <- graph.Keys :: Bears(graph, s, id)
  {
  }

  // The orphans are the scanned points that the graph does not mention.
  lemma OrphanIff(points: seq<HealerPoint>, graph: Graph, p: HealerPoint)
    requires "" !in p.aliases
    ensures p in Orphans(points, graph) <==> p in points && Unmentioned(graph, p)
  {
    OrphanWithout(points, graph, p);
    UnmentionedIff(graph, p);
  }

  // ---------------------------------------------------------------- neighbours

  datatype Hit = Hit(rawId: string, score: real, fields: Fields)

  datatype Neighbor = Neighbor(point: HealerPoint, score: real)

  // index_points_by_alias: the first point to claim an alias keeps it.
  function IndexByAlias(points: seq<HealerPoint>): map<string, HealerPoint> {
    if points == [] then map[]
    else
      var index, last := IndexByAlias(points[..|points| - 1]), points[|points| - 1];
      (map a <- last.aliases :: last) + index
  }

  // The point a hit stands for: a scanned point under its id, or the hit itself.
  function Resolve(collection: string, hit: Hit, index: map<string, HealerPoint>): Option<HealerPoint> {
    var id := Strip(hit.rawId);
    if id != "" && id in index then Some(index[id]) else PointFrom(collection, hit.rawId, hit.fields)
  }

  // The first scanned point with the alias.
  ghost predicate FirstWith(points: seq<HealerPoint>, alias: string, p: HealerPoint) {
    exists i: nat | i < |points| :: points[i] == p && alias in p.aliases && NoneWith(points[..i], alias)
  }

  ghost predicate NoneWith(points: seq<HealerPoint>, alias: string) { forall q <- points :: alias !in q.aliases }

  lemma {:induction false} IndexIff(points: seq<HealerPoint>, alias: string, p: HealerPoint)
    ensures alias in IndexByAlias(points) <==> !NoneWith(points, alias)
    ensures alias in IndexByAlias(points) && IndexByAlias(points)[alias] == p <==> FirstWith(points, alias, p)
  {
    if points != [] {
      var init, last := points[..|points| - 1], points[|points| - 1];
      IndexIff(init, alias, p);
      FirstWithSnoc(init, last, alias, p);
      assert points == init + [last];
    }
  }

  lemma FirstWithSnoc(init: seq<HealerPoint>, last: HealerPoint, alias: string, p: HealerPoint)
    ensures FirstWith(init + [last], alias, p)
       <==> FirstWith(init, alias, p) || (NoneWith(init, alias) && last == p && alias in p.aliases)
    ensures NoneWith(init + [last], alias) <==> NoneWith(init, alias) && alias !in last.aliases
    ensures FirstWith(init, alias, p) ==> !NoneWith(init, alias)
  {
    var points := init + [last];
    assert last in points && forall q <- init :: q in points;
    if i: nat :| i < |init| && init[i] == p && alias in p.aliases && NoneWith(init[..i], alias) {
      assert points[i] == p && points[..i] == init[..i];
    }
    if NoneWith(init, alias) && last == p && alias in p.aliases {
      assert points[|init|] == p && points[..|init|] == init;
    }
    if i: nat :| i < |points| && points[i] == p && alias in p.aliases && NoneWith(points[..i], alias) {
      if i < |init| { assert points[..i] == init[..i]; } else { assert points[..i] == init; }
    }
  }

  // A hit stands for the first scanned point that knows its id, or else for the point it describes.
  ghost predicate StandsFor(collection: string, hit: Hit, points: seq<HealerPoint>, p: HealerPoint) {
    var id := Strip(hit.rawId);
    && id != ""
    && if NoneWith(points, id) then IsPoint(collection, id, hit.fields, p) else FirstWith(points, id, p)
  }

  lemma ResolveIff(collection: string, hit: Hit, points: seq<HealerPoint>, p: HealerPoint)
    ensures Resolve(collection, hit, IndexByAlias(points)) == Some(p) <==> StandsFor(collection, hit, points, p)
  {
    IndexIff(points, Strip(hit.rawId), p);
    if Strip(hit.rawId) != "" { PointIsOne(collection, hit.rawId, hit.fields, p); }
  }

  predicate Admits(point: HealerPoint, hit: Hit, threshold: real, index: map<string, HealerPoint>) {
    && hit.score > threshold
    && Resolve(point.collection, hit, index).Some?
    && point.aliases * Resolve(point.collection, hit, index).value.aliases == {}
  }

  predicate Seen(found: seq<Neighbor>, node: string) { exists n <- found :: n.point.nodeId == node }

  // search_similar_points, after the search has answered.
  function Neighbors(point: HealerPoint, hits: seq<Hit>, threshold: real,
                     index: map<string, HealerPoint>): seq<Neighbor> {
    if hits == [] then []
    else
      var found, hit := Neighbors(point, hits[..|hits| - 1], threshold, index), hits[|hits| - 1];
      if Admits(point, hit, threshold, index) && !Seen(found, Resolve(point.collection, hit, index).value.nodeId)
      then found + [Neighbor(Resolve(point.collection, hit, index).value, hit.score)]
      else found
  }

  // The same, as the loop over the hits computes it.
  method SearchSimilarPoints(point: HealerPoint, hits: seq<Hit>, threshold: real, index: map<string, HealerPoint>)
    returns (neighbors: seq<Neighbor>)
    ensures neighbors == Neighbors(point, hits, threshold, index)
  {
    neighbors := [];
    var seen: set<string> := {};
    for i := 0 to |hits|
      invariant neighbors == Neighbors(point, hits[..i], threshold, index)
      invariant forall node :: node in seen <==> Seen(neighbors, node)
    {
      assert hits[..i + 1][..i] == hits[..i];
      if hits[i].score <= threshold { continue; }
      var resolved := Resolve(point.collection, hits[i], index);
      if resolved == None { continue; }
      if point.aliases * resolved.value.aliases != {} { continue; }
      if resolved.value.nodeId in seen { continue; }
      seen := seen + {resolved.value.nodeId};
      ghost var before := neighbors;
      neighbors := neighbors + [Neighbor(resolved.value, hits[i].score)];
      assert forall node :: Seen(neighbors, node) <==> Seen(before, node) || node == resolved.value.nodeId;
    }
    assert hits[..|hits|] == hits;
  }

  // Each neighbour beat the threshold and shares no alias with the point; no two are one node.
  ghost predicate ProperNeighbors(point: HealerPoint, found: seq<Neighbor>, threshold: real) {
    && (forall i | 0 <= i < |found| :: found[i].score > threshold && point.aliases * found[i].point.aliases == {})
    && (forall i, j | 0 <= i < j < |found| :: found[i].point.nodeId != found[j].point.nodeId)
  }

  lemma {:induction false} NeighborsAreProper(point: HealerPoint, hits: seq<Hit>, threshold: real,
                                              index: map<string, HealerPoint>)
    ensures ProperNeighbors(point, Neighbors(point, hits, threshold, index), threshold)
  {
    if hits != [] {
      NeighborsAreProper(point, hits[..|hits| - 1], threshold, index);
      var rest := Neighbors(point, hits[..|hits| - 1], threshold, index);
      var found := Neighbors(point, hits, threshold, index);
      if |found| > |rest| {
        forall i | 0 <= i < |rest| ensures found[i] == rest[i] && rest[i] in rest { }
      }
    }
  }

  // ---------------------------------------------------------------- planning

  /** A planned link, with the two points it was planned from. */
  datatype LinkPlan = LinkPlan(source: HealerPoint, target: HealerPoint, kind: EdgeKind, score: real)

  function KeyOf(p: LinkPlan): EdgeKey { EdgeKey(p.source.nodeId, p.target.nodeId, p.kind) }

  function KeysOf(plans: seq<LinkPlan>): set<EdgeKey> {
    if plans == [] then {} else KeysOf(plans[..|plans| - 1]) + {KeyOf(plans[|plans| - 1])}
  }

  ghost predicate HasKey(plans: seq<LinkPlan>, key: EdgeKey) { exists i :: 0 <= i < |plans| && KeyOf(plans[i]) == key }

  lemma {:induction false} KeysOfIff(plans: seq<LinkPlan>, key: EdgeKey)
    ensures key in KeysOf(plans) <==> HasKey(plans, key)
  {
    if plans != [] {
      KeysOfIff(plans[..|plans| - 1], key);
      if HasKey(plans[..|plans| - 1], key) {
        var i :| 0 <= i < |plans| - 1 && KeyOf(plans[..|plans| - 1][i]) == key;
        assert KeyOf(plans[i]) == key;
      }
    }
  }

  // classify_edge_by_time
  function Classify(source: HealerPoint, neighbor: HealerPoint): EdgeKind {
    if neighbor.time > source.time then UPGRADES else DEPENDS_ON
  }

  // The plan for one neighbour, unless it is a self-loop or a known edge.
  function PlanFor(orphan: HealerPoint, n: Neighbor, known: set<EdgeKey>): seq<LinkPlan> {
    var plan := LinkPlan(orphan, n.point, Classify(orphan, n.point), n.score);
    if orphan.nodeId == n.point.nodeId || KeyOf(plan) in known then [] else [plan]
  }

  // plan_links_for_orphan
  function PlanLinks(orphan: HealerPoint, neighbors: seq<Neighbor>, existing: set<EdgeKey>): seq<LinkPlan> {
    if neighbors == [] then []
    else
      var plans := PlanLinks(orphan, neighbors[..|neighbors| - 1], existing);
      plans + PlanFor(orphan, neighbors[|neighbors| - 1], existing + KeysOf(plans))
  }

  method PlanLinksForOrphan(orphan: HealerPoint, neighbors: seq<Neighbor>, existing: set<EdgeKey>)
    returns (plans: seq<LinkPlan>)
    ensures plans == PlanLinks(orphan, neighbors, existing)
  {
    plans := [];
    var known := existing;
    for i := 0 to |neighbors|
      invariant plans == PlanLinks(orphan, neighbors[..i], existing)
      invariant known == existing + KeysOf(plans)
    {
      assert neighbors[..i + 1][..i] == neighbors[..i];
      ghost var before := plans;
      var target := neighbors[i].point;
      var plan := LinkPlan(orphan, target, Classify(orphan, target), neighbors[i].score);
      assert PlanLinks(orphan, neighbors[..i + 1], existing) == before + PlanFor(orphan, neighbors[i], known);
      if orphan.nodeId == target.nodeId { continue; }
      if KeyOf(plan) in known { continue; }
      KeysOfSnoc(plans, plan);
      known := known + {KeyOf(plan)};
      plans := plans + [plan];
    }
    assert neighbors[..|neighbors|] == neighbors;
  }

  lemma KeysOfSnoc(plans: seq<LinkPlan>, plan: LinkPlan)
    ensures KeysOf(plans + [plan]) == KeysOf(plans) + {KeyOf(plan)}
  {
    assert (plans + [plan])[..|plans|] == plans;
  }

  // A plan links two different nodes by the kind their times ask for, starting at an orphan.
  predicate SoundPlan(p: LinkPlan) {
    p.source.nodeId != p.target.nodeId && p.kind == Classify(p.source, p.target)
  }

  ghost predicate DistinctKeys(plans: seq<LinkPlan>) {
    forall i, j | 0 <= i < j < |plans| :: KeyOf(plans[i]) != KeyOf(plans[j])
  }

  // The plans of one orphan are sound, new and pairwise different.
  ghost predicate FreshPlans(plans: seq<LinkPlan>, orphan: HealerPoint, existing: set<EdgeKey>) {
    && (forall i | 0 <= i < |plans| :: SoundPlan(plans[i]) && plans[i].source == orphan && KeyOf(plans[i]) !in existing)
    && DistinctKeys(plans)
  }

  lemma {:induction false} PlanLinksAreFresh(orphan: HealerPoint, neighbors: seq<Neighbor>, existing: set<EdgeKey>)
    ensures FreshPlans(PlanLinks(orphan, neighbors, existing), orphan, existing)
  {
    if neighbors != [] {
      PlanLinksAreFresh(orphan, neighbors[..|neighbors| - 1], existing);
      var before := PlanLinks(orphan, neighbors[..|neighbors| - 1], existing);
      forall i | 0 <= i < |before| ensures KeyOf(before[i]) in KeysOf(before) {
        KeysOfIff(before, KeyOf(before[i]));
      }
    }
  }

  // ---------------------------------------------------------------- a run

  datatype SearchAnswer = SearchFailed | Hits(hits: seq<Hit>)

  /** The inputs of a run: what the scan found, the graph at the start, the answers of the
      searches in the order they are made, and the options. */
  datatype Run = Run(points: seq<HealerPoint>, graph: Graph, search: nat -> SearchAnswer, threshold: real,
                     maxOrphans: Option<nat>, maxLinks: Option<nat>)

  function RunOrphans(run: Run): seq<HealerPoint> { Orphans(run.points, run.graph) }

  function RunNeighbors(run: Run, k: nat): seq<Neighbor> {
    match run.search(k)
    case SearchFailed => []
    case Hits(hits) =>
      if k < |RunOrphans(run)| then Neighbors(RunOrphans(run)[k], hits, run.threshold, IndexByAlias(run.points)) else []
  }

  /** What the planning loop works from: the orphans in order, the neighbours each search brings,
      the edges of the starting graph, and the limit on links. */
  datatype Planning = Planning(orphans: seq<HealerPoint>, neighborsOf: nat -> seq<Neighbor>,
                               known: set<EdgeKey>, limit: Option<nat>)

  function PlanningOf(run: Run): Planning {
    Planning(RunOrphans(run), (k: nat) => RunNeighbors(run, k), EdgeKeys(run.graph), run.maxLinks)
  }

  // A list cut at an optional limit, and whether it has reached it.
  function Capped<T>(limit: Option<nat>, s: seq<T>): seq<T> {
    match limit case None => s case Some(m) => if |s| <= m then s else s[..m]
  }

  predicate Full<T>(limit: Option<nat>, s: seq<T>) { limit.Some? && |s| >= limit.value }

  lemma CappedPrefix<T>(limit: Option<nat>, s: seq<T>, n: nat)
    requires n <= |s|
    ensures Capped(limit, s[..n]) == s[..n] && Full(limit, s[..n]) ==> Capped(limit, s) == s[..n]
    ensures Capped(limit, s[..n]) == s[..n] && !Full(limit, s[..n]) && n < |s| ==>
      Capped(limit, s[..n + 1]) == s[..n + 1]
    ensures Full(limit, Capped(limit, s)) <==> Full(limit, s)
  {
  }

  function PlansOf(pl: Planning, k: nat, before: seq<LinkPlan>): seq<LinkPlan>
    requires k < |pl.orphans|
  {
    PlanLinks(pl.orphans[k], pl.neighborsOf(k), pl.known + KeysOf(before))
  }

  // All plans after the first k orphans; orphans past a full plan list add nothing.
  function PlansAfter(pl: Planning, k: nat): seq<LinkPlan>
    requires k <= |pl.orphans|
  {
    if k == 0 then []
    else Capped(pl.limit, PlansAfter(pl, k - 1) + PlansOf(pl, k - 1, PlansAfter(pl, k - 1)))
  }

  function Processed(run: Run): nat {
    match run.maxOrphans case None => |RunOrphans(run)| case Some(m) => Min(m, |RunOrphans(run)|)
  }

  function AllPlans(run: Run): seq<LinkPlan> { PlansAfter(PlanningOf(run), Processed(run)) }

  lemma CappedTwice<T>(limit: Option<nat>, s: seq<T>)
    ensures Capped(limit, Capped(limit, s)) == Capped(limit, s)
  {
  }

  lemma PlansStayCapped(pl: Planning, k: nat)
    requires k <= |pl.orphans|
    ensures Capped(pl.limit, PlansAfter(pl, k)) == PlansAfter(pl, k)
  {
    if k > 0 {
      CappedTwice(pl.limit, PlansAfter(pl, k - 1) + PlansOf(pl, k - 1, PlansAfter(pl, k - 1)));
    }
  }

  lemma FullTakesNoMore<T>(limit: Option<nat>, before: seq<T>, more: seq<T>)
    requires Capped(limit, before) == before && Full(limit, before)
    ensures Capped(limit, before + more) == before
  {
    assert (before + more)[..|before|] == before;
  }

  // Once the list is full, later orphans add nothing.
  lemma {:induction false} FullStays(pl: Planning, k: nat, j: nat)
    requires k <= j <= |pl.orphans| && Full(pl.limit, PlansAfter(pl, k))
    ensures PlansAfter(pl, j) == PlansAfter(pl, k)
    decreases j - k
  {
    if k < j {
      FullNext(pl, k);
      FullStays(pl, k + 1, j);
    }
  }

  lemma FullNext(pl: Planning, k: nat)
    requires k < |pl.orphans| && Full(pl.limit, PlansAfter(pl, k))
    ensures PlansAfter(pl, k + 1) == PlansAfter(pl, k)
  {
    PlansStayCapped(pl, k);
    FullTakesNoMore(pl.limit, PlansAfter(pl, k), PlansOf(pl, k, PlansAfter(pl, k)));
  }

  // The links that were written: those of the planned ones whose write did not fail.
  function Succeeded(plans: seq<LinkPlan>, linkOk: nat -> bool): seq<LinkPlan> {
    if plans == [] then []
    else
      var n := |plans| - 1;
      Succeeded(plans[..n], linkOk) + (if linkOk(n) then [plans[n]] else [])
  }

  function Applied(plans: seq<LinkPlan>, dryRun: bool, linkOk: nat -> bool): seq<LinkPlan> {
    if dryRun then [] else Succeeded(plans, linkOk)
  }

  function AddLink(graph: Graph, p: LinkPlan): Graph {
    var source := p.source.nodeId;
    graph[source := (if source in graph then graph[source] else []) + [Link(p.target.nodeId, p.kind)]]
  }

  function AddAll(graph: Graph, plans: seq<LinkPlan>): Graph {
    if plans == [] then graph else AddLink(AddAll(graph, plans[..|plans| - 1]), plans[|plans| - 1])
  }

  lemma AppliedSnoc(plans: seq<LinkPlan>, p: LinkPlan, dryRun: bool, linkOk: nat -> bool)
    ensures Applied(plans + [p], dryRun, linkOk)
         == Applied(plans, dryRun, linkOk) + (if !dryRun && linkOk(|plans|) then [p] else [])
  {
    assert (plans + [p])[..|plans|] == plans;
  }

  lemma AddAllSnoc(graph: Graph, plans: seq<LinkPlan>, p: LinkPlan)
    ensures AddAll(graph, plans + [p]) == AddLink(AddAll(graph, plans), p)
  {
    assert (plans + [p])[..|plans|] == plans;
  }

  /** The durable graph.  A write either appends the link to its source node or fails and leaves
      the graph alone. */
  class GraphManager {
    var graph: Graph

    method AddSemanticLink(p: LinkPlan, ok: bool)
      modifies this
      ensures graph == if ok then AddLink(old(graph), p) else old(graph)
      ensures ok ==>
        && graph.Keys == old(graph).Keys + {p.source.nodeId}
        && (forall s <- old(graph).Keys | s != p.source.nodeId :: graph[s] == old(graph)[s])
        && graph[p.source.nodeId]
           == (if p.source.nodeId in old(graph) then old(graph)[p.source.nodeId] else [])
              + [Link(p.target.nodeId, p.kind)]
    {
      if ok { graph := AddLink(graph, p); }
    }
  }

  // heal_graph, for an answered scan.
  method HealGraph(manager: GraphManager, run: Run, dryRun: bool, linkOk: nat -> bool)
    returns (plans: seq<LinkPlan>, applied: seq<LinkPlan>)
    requires run.graph == manager.graph
    modifies manager
    ensures plans == AllPlans(run)
    ensures applied == Applied(plans, dryRun, linkOk)
    ensures manager.graph == AddAll(run.graph, applied)
  {
    var pl := PlanningOf(run);
    plans, applied := PlanLoop(manager, pl, Processed(run), dryRun, linkOk);
  }

  // The state of the run after k orphans.
  ghost predicate AfterOrphans(pl: Planning, start: Graph, dryRun: bool, linkOk: nat -> bool, k: nat,
                               plans: seq<LinkPlan>, applied: seq<LinkPlan>, existing: set<EdgeKey>, graph: Graph)
    requires k <= |pl.orphans|
  {
    && plans == PlansAfter(pl, k) && existing == pl.known + KeysOf(plans)
    && applied == Applied(plans, dryRun, linkOk) && graph == AddAll(start, applied)
  }

  // The outer loop, over the orphans the options allow, until the plan list is full.
  method PlanLoop(manager: GraphManager, pl: Planning, last: nat, dryRun: bool, linkOk: nat -> bool)
    returns (plans: seq<LinkPlan>, applied: seq<LinkPlan>)
    requires last <= |pl.orphans|
    modifies manager
    ensures plans == PlansAfter(pl, last)
    ensures applied == Applied(plans, dryRun, linkOk) && manager.graph == AddAll(old(manager.graph), applied)
  {
    ghost var start := manager.graph;
    var existing := pl.known;
    plans, applied := [], [];
    for i := 0 to last
      invariant AfterOrphans(pl, start, dryRun, linkOk, i, plans, applied, existing, manager.graph)
    {
      plans, applied, existing := PlanOrphan(manager, start, pl, i, dryRun, linkOk, plans, applied, existing);
      if Full(pl.limit, plans) {
        NothingMore(pl, start, dryRun, linkOk, i + 1, last, plans, applied, existing, manager.graph);
        return;
      }
    }
  }

  // The state of a full list is the one after all the orphans.
  lemma NothingMore(pl: Planning, start: Graph, dryRun: bool, linkOk: nat -> bool, k: nat, last: nat,
                    plans: seq<LinkPlan>, applied: seq<LinkPlan>, existing: set<EdgeKey>, graph: Graph)
    requires k <= last <= |pl.orphans| && Full(pl.limit, plans)
    requires AfterOrphans(pl, start, dryRun, linkOk, k, plans, applied, existing, graph)
    ensures AfterOrphans(pl, start, dryRun, linkOk, last, plans, applied, existing, graph)
  {
    FullStays(pl, k, last);
  }

  method PlanOrphan(manager: GraphManager, ghost start: Graph, pl: Planning, i: nat, dryRun: bool, linkOk: nat -> bool,
                    before: seq<LinkPlan>, written: seq<LinkPlan>, known: set<EdgeKey>)
    returns (plans: seq<LinkPlan>, applied: seq<LinkPlan>, existing: set<EdgeKey>)
    requires i < |pl.orphans| && AfterOrphans(pl, start, dryRun, linkOk, i, before, written, known, manager.graph)
    modifies manager
    ensures AfterOrphans(pl, start, dryRun, linkOk, i + 1, plans, applied, existing, manager.graph)
  {
    PlansStayCapped(pl, i);
    var novel := PlanLinksForOrphan(pl.orphans[i], pl.neighborsOf(i), known);
    PlanLinksAreFresh(pl.orphans[i], pl.neighborsOf(i), known);
    plans, applied, existing := AcceptPlans(manager, start, dryRun, linkOk, pl, before, written, novel, known);
    assert novel == PlansOf(pl, i, before);
  }

  // The inner loop: accept one orphan's plans up to the limit, writing each unless it is a dry run.
  method AcceptPlans(manager: GraphManager, ghost start: Graph, dryRun: bool, linkOk: nat -> bool, pl: Planning,
                     before: seq<LinkPlan>, written: seq<LinkPlan>, novel: seq<LinkPlan>, known: set<EdgeKey>)
    returns (plans: seq<LinkPlan>, applied: seq<LinkPlan>, existing: set<EdgeKey>)
    requires known == pl.known + KeysOf(before) && Capped(pl.limit, before) == before
    requires NewKeys(novel, known)
    requires written == Applied(before, dryRun, linkOk) && manager.graph == AddAll(start, written)
    modifies manager
    ensures plans == Capped(pl.limit, before + novel) && existing == pl.known + KeysOf(plans)
    ensures applied == Applied(plans, dryRun, linkOk) && manager.graph == AddAll(start, applied)
  {
    ghost var all := before + novel;
    plans, applied, existing := before, written, known;
    assert all[..|before|] == before;
    for j := 0 to |novel|
      invariant plans == all[..|before| + j] && Capped(pl.limit, plans) == plans
      invariant existing == pl.known + KeysOf(plans)
      invariant existing == known + KeysOf(novel[..j])
      invariant applied == Applied(plans, dryRun, linkOk) && manager.graph == AddAll(start, applied)
    {
      CappedPrefix(pl.limit, all, |before| + j);
      if Full(pl.limit, plans) { return; }
      NewAt(novel, known, j);
      if KeyOf(novel[j]) in existing { assert false; }
      KeysOfSnoc(plans, novel[j]);
      KeysOfSnoc(novel[..j], novel[j]);
      TakeNext(all, |before| + j);
      TakeNext(novel, j);
      existing := existing + {KeyOf(novel[j])};
      applied := WritePlan(manager, start, dryRun, linkOk, plans, applied, novel[j]);
      plans := plans + [novel[j]];
    }
    assert all[..|all|] == all;
  }

  method WritePlan(manager: GraphManager, ghost start: Graph, dryRun: bool, linkOk: nat -> bool, plans: seq<LinkPlan>,
                   written: seq<LinkPlan>, p: LinkPlan)
    returns (applied: seq<LinkPlan>)
    requires written == Applied(plans, dryRun, linkOk) && manager.graph == AddAll(start, written)
    modifies manager
    ensures applied == Applied(plans + [p], dryRun, linkOk) && manager.graph == AddAll(start, applied)
  {
    applied := written;
    AppliedSnoc(plans, p, dryRun, linkOk);
    if !dryRun {
      manager.AddSemanticLink(p, linkOk(|plans|));
      if linkOk(|plans|) {
        AddAllSnoc(start, applied, p);
        applied := applied + [p];
      }
    }
  }

  ghost predicate NewKeys(novel: seq<LinkPlan>, known: set<EdgeKey>) {
    && (forall i | 0 <= i < |novel| :: KeyOf(novel[i]) !in known)
    && DistinctKeys(novel)
  }

  lemma NewAt(novel: seq<LinkPlan>, known: set<EdgeKey>, j: nat)
    requires NewKeys(novel, known) && j < |novel|
    ensures KeyOf(novel[j]) !in known + KeysOf(novel[..j])
  {
    KeysOfIff(novel[..j], KeyOf(novel[j]));
  }

  // ---------------------------------------------------------------- what every run plans

  // Every plan is sound, starts at an orphan, and has a key of its own that the graph lacks.
  ghost predicate GoodPlans(pl: Planning, plans: seq<LinkPlan>) {
    && (forall i | 0 <= i < |plans| ::
          SoundPlan(plans[i]) && plans[i].source in pl.orphans && KeyOf(plans[i]) !in pl.known)
    && DistinctKeys(plans)
  }

  lemma GoodPlansExtend(pl: Planning, before: seq<LinkPlan>, novel: seq<LinkPlan>, orphan: HealerPoint)
    requires GoodPlans(pl, before) && orphan in pl.orphans
    requires FreshPlans(novel, orphan, pl.known + KeysOf(before))
    ensures GoodPlans(pl, before + novel)
  {
    var all := before + novel;
    forall i, j | 0 <= i < j < |all| ensures KeyOf(all[i]) != KeyOf(all[j]) {
      if i < |before| <= j {
        assert KeyOf(before[i]) in KeysOf(before) by { KeysOfIff(before, KeyOf(before[i])); }
        assert KeyOf(novel[j - |before|]) !in KeysOf(before);
      } else if |before| <= i {
        assert KeyOf(novel[i - |before|]) != KeyOf(novel[j - |before|]);
      }
    }
  }

  lemma {:induction false} PlansAreGood(pl: Planning, k: nat)
    requires k <= |pl.orphans|
    ensures GoodPlans(pl, PlansAfter(pl, k))
  {
    if k > 0 {
      PlansAreGood(pl, k - 1);
      var before := PlansAfter(pl, k - 1);
      var novel := PlansOf(pl, k - 1, before);
      PlanLinksAreFresh(pl.orphans[k - 1], pl.neighborsOf(k - 1), pl.known + KeysOf(before));
      GoodPlansExtend(pl, before, novel, pl.orphans[k - 1]);
      GoodPlansCapped(pl, before + novel);
    }
  }

  lemma GoodPlansCapped(pl: Planning, plans: seq<LinkPlan>)
    requires GoodPlans(pl, plans)
    ensures GoodPlans(pl, Capped(pl.limit, plans))
  {
  }

  lemma CapHolds<T>(limit: Option<nat>, s: seq<T>)
    ensures limit.Some? ==> |Capped(limit, s)| <= limit.value
  {
  }

  lemma {:induction false} AppliedArePlanned(plans: seq<LinkPlan>, linkOk: nat -> bool)
    ensures |Succeeded(plans, linkOk)| <= |plans|
    ensures forall p <- Succeeded(plans, linkOk) :: p in plans
  {
    if plans != [] {
      AppliedArePlanned(plans[..|plans| - 1], linkOk);
    }
  }

  lemma GoodPlanAt(pl: Planning, plans: seq<LinkPlan>, p: LinkPlan)
    requires GoodPlans(pl, plans) && p in plans
    ensures SoundPlan(p) && p.source in pl.orphans
  {
  }

  lemma UnmentionedByName(mentioned: set<string>, p: HealerPoint)
    requires WellNamed(p) && mentioned * p.aliases == {}
    ensures p.nodeId !in mentioned
  {
    assert p.nodeId in mentioned ==> p.nodeId in mentioned * p.aliases;
  }

  // Every planned link starts at a scanned point that the starting graph mentions by none of its aliases, is
  // not a self-loop, and is an upgrade exactly when it leads to a newer point.
  lemma EveryPlanIsFresh(run: Run, p: LinkPlan)
    requires (forall q <- run.points :: WellNamed(q)) && p in AllPlans(run)
    ensures p.source in run.points && Unmentioned(run.graph, p.source)
    ensures p.source.nodeId != p.target.nodeId
    ensures p.kind == UPGRADES || p.kind == DEPENDS_ON
    ensures p.kind == UPGRADES <==> p.target.time > p.source.time
  {
    PlansAreGood(PlanningOf(run), Processed(run));
    GoodPlanAt(PlanningOf(run), AllPlans(run), p);
    OrphanWithout(run.points, run.graph, p.source);
    UnmentionedIff(run.graph, p.source);
  }

  // The graph has such a link already, between two nodes that are not blank.
  ghost predicate HasLink(graph: Graph, source: string, target: string, kind: EdgeKind) {
    && source != "" && target != "" && kind != OTHER("")
    && exists s <- graph.Keys, l <- graph[s] :: Strip(s) == source && Strip(l.target) == target && l.kind == kind
  }

  lemma HasLinkIff(graph: Graph, source: string, target: string, kind: EdgeKind)
    ensures EdgeKey(source, target, kind) in EdgeKeys(graph) <==> HasLink(graph, source, target, kind)
  {
  }

  // No two planned links share a key, none is in the starting graph, and their number respects the limit.
  lemma PlansAreDistinct(run: Run)
    ensures forall i, j | 0 <= i < j < |AllPlans(run)| ::
      var p, q := AllPlans(run)[i], AllPlans(run)[j];
      p.source.nodeId != q.source.nodeId || p.target.nodeId != q.target.nodeId || p.kind != q.kind
    ensures forall p <- AllPlans(run) :: !HasLink(run.graph, p.source.nodeId, p.target.nodeId, p.kind)
    ensures run.maxLinks.Some? ==> |AllPlans(run)| <= run.maxLinks.value
  {
    PlansAreGood(PlanningOf(run), Processed(run));
    forall p | p in AllPlans(run) ensures !HasLink(run.graph, p.source.nodeId, p.target.nodeId, p.kind) {
      HasLinkIff(run.graph, p.source.nodeId, p.target.nodeId, p.kind);
    }
    PlansStayCapped(PlanningOf(run), Processed(run));
    CapHolds(run.maxLinks, AllPlans(run));
  }

  // ---------------------------------------------------------------- no upgrade cycle

  // Reading UPGRADES from source to target and DEPENDS_ON from target to source.
  function From(p: LinkPlan): HealerPoint { if p.kind == UPGRADES then p.source else p.target }

  function To(p: LinkPlan): HealerPoint { if p.kind == UPGRADES then p.target else p.source }

  // Points that are one node have one time: the clock gives it.
  ghost predicate OneTimePerNode(plans: seq<LinkPlan>, clock: string -> int) {
    forall p <- plans :: p.source.time == clock(p.source.nodeId) && p.target.time == clock(p.target.nodeId)
  }

  ghost predicate Follows(p: LinkPlan, q: LinkPlan) { To(p).nodeId == From(q).nodeId }

  // A sequence of planned links, each leaving the node the one before arrived at.
  ghost predicate IsWalk(walk: seq<LinkPlan>, plans: seq<LinkPlan>) {
    && (forall i | 0 <= i < |walk| :: walk[i] in plans)
    && (forall i, j | 0 <= i < j < |walk| && j == i + 1 :: Follows(walk[i], walk[j]))
  }

  ghost predicate IsCycle(walk: seq<LinkPlan>, plans: seq<LinkPlan>) {
    walk != [] && IsWalk(walk, plans) && Follows(walk[|walk| - 1], walk[0])
  }

  function StartTime(p: LinkPlan, clock: string -> int): int { clock(From(p).nodeId) }

  function EndTime(p: LinkPlan, clock: string -> int): int { clock(To(p).nodeId) }

  lemma LinkGoesForward(p: LinkPlan, plans: seq<LinkPlan>, clock: string -> int)
    requires OneTimePerNode(plans, clock) && p in plans && SoundPlan(p)
    ensures StartTime(p, clock) <= EndTime(p, clock)
    ensures p.kind == UPGRADES ==> StartTime(p, clock) < EndTime(p, clock)
  {
  }

  lemma {:induction false} WalkGoesForward(walk: seq<LinkPlan>, plans: seq<LinkPlan>, clock: string -> int, i: nat)
    requires OneTimePerNode(plans, clock) && forall p <- plans :: SoundPlan(p)
    requires IsWalk(walk, plans) && i < |walk|
    ensures StartTime(walk[0], clock) <= EndTime(walk[|walk| - 1], clock)
    ensures walk[i].kind == UPGRADES ==> StartTime(walk[0], clock) < EndTime(walk[|walk| - 1], clock)
    decreases |walk|
  {
    var n := |walk| - 1;
    LinkGoesForward(walk[n], plans, clock);
    if n > 0 {
      assert Follows(walk[n - 1], walk[n]);
      assert walk[..n][n - 1] == walk[n - 1];
      WalkGoesForward(walk[..n], plans, clock, if i < n then i else 0);
    }
  }

  // The points a run works with: those that were scanned, and those its hits stand for.
  ghost predicate IsInput(run: Run, p: HealerPoint) { p in run.points || FromHit(run, p) }

  ghost predicate FromHit(run: Run, p: HealerPoint) {
    exists k: nat, collection, hit | run.search(k).Hits? && hit in run.search(k).hits ::
      StandsFor(collection, hit, run.points, p)
  }

  // Points that are one node have one time.
  ghost predicate TimesAgree(run: Run) {
    forall p, q | IsInput(run, p) && IsInput(run, q) :: p.nodeId == q.nodeId ==> p.time == q.time
  }

  lemma {:induction false} NeighborFromHit(point: HealerPoint, hits: seq<Hit>, threshold: real,
                                           index: map<string, HealerPoint>, n: Neighbor)
    requires n in Neighbors(point, hits, threshold, index)
    ensures exists hit <- hits ::
      && Resolve(point.collection, hit, index) == Some(n.point)
      && hit.score == n.score > threshold && point.aliases * n.point.aliases == {}
  {
    var init, last := hits[..|hits| - 1], hits[|hits| - 1];
    assert hits == init + [last];
    if n in Neighbors(point, init, threshold, index) { NeighborFromHit(point, init, threshold, index, n); }
  }

  lemma {:induction false} LinkOfNeighbor(orphan: HealerPoint, neighbors: seq<Neighbor>, existing: set<EdgeKey>,
                                          p: LinkPlan)
    requires p in PlanLinks(orphan, neighbors, existing)
    ensures p.source == orphan && Neighbor(p.target, p.score) in neighbors
  {
    var init, last := neighbors[..|neighbors| - 1], neighbors[|neighbors| - 1];
    assert neighbors == init + [last];
    if p in PlanLinks(orphan, init, existing) { LinkOfNeighbor(orphan, init, existing, p); }
  }

  // Every target is a neighbour that the search for its source brought.
  lemma {:induction false} TargetIsNeighbor(pl: Planning, k: nat, p: LinkPlan) returns (i: nat)
    requires k <= |pl.orphans| && p in PlansAfter(pl, k)
    ensures i < k && p.source == pl.orphans[i] && Neighbor(p.target, p.score) in pl.neighborsOf(i)
  {
    var before := PlansAfter(pl, k - 1);
    if p in before {
      i := TargetIsNeighbor(pl, k - 1, p);
    } else {
      i := k - 1;
      assert p in before + PlansOf(pl, k - 1, before);
      LinkOfNeighbor(pl.orphans[k - 1], pl.neighborsOf(k - 1), pl.known + KeysOf(before), p);
    }
  }

  // A search of the run brought the hit for the link: it beat the threshold, stands for the target, and shares
  // no alias with the source.
  ghost predicate Brought(run: Run, k: nat, hit: Hit, p: LinkPlan) {
    && run.search(k).Hits? && hit in run.search(k).hits && hit.score == p.score > run.threshold
    && StandsFor(p.source.collection, hit, run.points, p.target)
    && forall a <- p.source.aliases :: a !in p.target.aliases
  }

  // Every planned link comes from a hit of the search for one of the processed orphans.
  lemma EveryPlanHasItsHit(run: Run, p: LinkPlan) returns (k: nat, hit: Hit)
    requires p in AllPlans(run)
    ensures k < |RunOrphans(run)| && (run.maxOrphans.Some? ==> k < run.maxOrphans.value)
    ensures RunOrphans(run)[k] == p.source && Brought(run, k, hit, p)
  {
    k := TargetIsNeighbor(PlanningOf(run), Processed(run), p);
    var n, index := Neighbor(p.target, p.score), IndexByAlias(run.points);
    NeighborFromHit(p.source, run.search(k).hits, run.threshold, index, n);
    hit :| hit in run.search(k).hits && Resolve(p.source.collection, hit, index) == Some(p.target)
      && hit.score == p.score > run.threshold && p.source.aliases * p.target.aliases == {};
    ResolveIff(p.source.collection, hit, run.points, p.target);
    forall a <- p.source.aliases ensures a !in p.target.aliases {
      assert a in p.target.aliases ==> a in p.source.aliases * p.target.aliases;
    }
  }

  lemma {:induction false} HitBringsNode(point: HealerPoint, hits: seq<Hit>, threshold: real,
                                         index: map<string, HealerPoint>, hit: Hit) returns (n: Neighbor)
    requires hit in hits && Admits(point, hit, threshold, index)
    ensures n in Neighbors(point, hits, threshold, index)
    ensures n.point.nodeId == Resolve(point.collection, hit, index).value.nodeId
  {
    var init, last := hits[..|hits| - 1], hits[|hits| - 1];
    assert hits == init + [last];
    var found := Neighbors(point, init, threshold, index);
    if hit in init {
      n := HitBringsNode(point, init, threshold, index, hit);
    } else if Seen(found, Resolve(point.collection, hit, index).value.nodeId) {
      n :| n in found && n.point.nodeId == Resolve(point.collection, hit, index).value.nodeId;
    } else {
      n := Neighbor(Resolve(point.collection, hit, index).value, hit.score);
    }
  }

  lemma PlannedAreInputs(run: Run, p: LinkPlan)
    requires p in AllPlans(run)
    ensures IsInput(run, p.source) && IsInput(run, p.target)
  {
    PlansAreGood(PlanningOf(run), Processed(run));
    GoodPlanAt(PlanningOf(run), AllPlans(run), p);
    OrphanWithout(run.points, run.graph, p.source);
    var i, hit := EveryPlanHasItsHit(run, p);
    assert FromHit(run, p.target);
  }

  ghost function NodeTime(run: Run, node: string): int {
    if exists p :: IsInput(run, p) && p.nodeId == node then
      var p :| IsInput(run, p) && p.nodeId == node;
      p.time
    else 0
  }

  // When the points of the scan and of the hits agree on the time of each node, no cycle of the planned
  // links passes through an UPGRADES link.
  lemma NoUpgradeCycle(run: Run, walk: seq<LinkPlan>, i: nat)
    requires TimesAgree(run) && IsCycle(walk, AllPlans(run)) && i < |walk|
    ensures walk[i].kind != UPGRADES
  {
    var clock := (node: string) => NodeTime(run, node);
    forall p | p in AllPlans(run)
      ensures p.source.time == clock(p.source.nodeId) && p.target.time == clock(p.target.nodeId)
    {
      PlannedAreInputs(run, p);
    }
    PlansAreGood(PlanningOf(run), Processed(run));
    WalkGoesForward(walk, AllPlans(run), clock, i);
  }

  // ---------------------------------------------------------------- a cycle where the times disagree

  lemma {:induction false} KeysOfBoth(a: seq<LinkPlan>, b: seq<LinkPlan>)
    ensures KeysOf(a + b) == KeysOf(a) + KeysOf(b)
  {
    if b == [] {
      assert a + b == a;
    } else {
      var init, last := b[..|b| - 1], b[|b| - 1];
      KeysOfBoth(a, init);
      KeysOfSnoc(a + init, last);
      assert a + b == (a + init) + [last];
    }
  }

  function KeyFor(orphan: HealerPoint, n: Neighbor): EdgeKey {
    EdgeKey(orphan.nodeId, n.point.nodeId, Classify(orphan, n.point))
  }

  // Each neighbour that is another node is planned or was known.
  lemma {:induction false} NeighborIsPlanned(orphan: HealerPoint, neighbors: seq<Neighbor>, existing: set<EdgeKey>,
                                             n: Neighbor)
    requires n in neighbors && n.point.nodeId != orphan.nodeId
    ensures KeyFor(orphan, n) in existing + KeysOf(PlanLinks(orphan, neighbors, existing))
  {
    var init, last := neighbors[..|neighbors| - 1], neighbors[|neighbors| - 1];
    assert neighbors == init + [last];
    var plans := PlanLinks(orphan, init, existing);
    KeysOfBoth(plans, PlanFor(orphan, last, existing + KeysOf(plans)));
    if n in init {
      NeighborIsPlanned(orphan, init, existing, n);
    } else {
      KeysOfSnoc([], LinkPlan(orphan, n.point, Classify(orphan, n.point), n.score));
    }
  }

  lemma NothingCut(pl: Planning, k: nat)
    requires k < |pl.orphans| && pl.limit == None
    ensures PlansAfter(pl, k + 1) == PlansAfter(pl, k) + PlansOf(pl, k, PlansAfter(pl, k))
  {
  }

  ghost predicate PlannedOrKnown(pl: Planning, k: nat, key: EdgeKey)
    requires k <= |pl.orphans|
  {
    key in pl.known + KeysOf(PlansAfter(pl, k))
  }

  lemma PlannedAtOnce(pl: Planning, i: nat, n: Neighbor)
    requires i < |pl.orphans| && pl.limit == None
    requires n in pl.neighborsOf(i) && n.point.nodeId != pl.orphans[i].nodeId
    ensures PlannedOrKnown(pl, i + 1, KeyFor(pl.orphans[i], n))
  {
    var before := PlansAfter(pl, i);
    NothingCut(pl, i);
    NeighborIsPlanned(pl.orphans[i], pl.neighborsOf(i), pl.known + KeysOf(before), n);
    KeyStays(pl.known, before, PlansOf(pl, i, before), KeyFor(pl.orphans[i], n));
  }

  lemma PlannedForGood(pl: Planning, k: nat, key: EdgeKey)
    requires k < |pl.orphans| && pl.limit == None && PlannedOrKnown(pl, k, key)
    ensures PlannedOrKnown(pl, k + 1, key)
  {
    NothingCut(pl, k);
    KeyStays(pl.known, PlansAfter(pl, k), PlansOf(pl, k, PlansAfter(pl, k)), key);
  }

  lemma {:induction false} StaysPlanned(pl: Planning, k: nat, j: nat, key: EdgeKey)
    requires k <= j <= |pl.orphans| && pl.limit == None && PlannedOrKnown(pl, k, key)
    ensures PlannedOrKnown(pl, j, key)
    decreases j - k
  {
    if k < j {
      PlannedForGood(pl, k, key);
      StaysPlanned(pl, k + 1, j, key);
    }
  }

  // Without a limit on links, the keys of every processed orphan's neighbours are planned or known.
  lemma KeyIsPlanned(pl: Planning, k: nat, i: nat, n: Neighbor)
    requires i < k <= |pl.orphans| && pl.limit == None
    requires n in pl.neighborsOf(i) && n.point.nodeId != pl.orphans[i].nodeId
    ensures PlannedOrKnown(pl, k, KeyFor(pl.orphans[i], n))
  {
    PlannedAtOnce(pl, i, n);
    StaysPlanned(pl, i + 1, k, KeyFor(pl.orphans[i], n));
  }

  lemma KeyStays(known: set<EdgeKey>, before: seq<LinkPlan>, novel: seq<LinkPlan>, key: EdgeKey)
    requires key in known + KeysOf(before) + KeysOf(novel)
    ensures key in known + KeysOf(before + novel)
  {
    KeysOfBoth(before, novel);
  }

  // So every run without that limit plans a link from an orphan to each of its other-node neighbours, by
  // this orphan or another of its node.
  lemma LinkIsPlanned(run: Run, i: nat, n: Neighbor) returns (p: LinkPlan)
    requires run.maxLinks == None && i < Processed(run) && n in RunNeighbors(run, i)
    requires WellNamed(RunOrphans(run)[i]) && n.point.nodeId != RunOrphans(run)[i].nodeId
    ensures p in AllPlans(run) && KeyOf(p) == KeyFor(RunOrphans(run)[i], n)
  {
    var pl, orphan := PlanningOf(run), RunOrphans(run)[i];
    var key := KeyFor(orphan, n);
    KeyIsPlanned(pl, Processed(run), i, n);
    OrphanWithout(run.points, run.graph, orphan);
    UnmentionedByName(Mentioned(run.graph), orphan);
    NotKnown(run.graph, key);
    KeysOfIff(AllPlans(run), key);
    var j :| 0 <= j < |AllPlans(run)| && KeyOf(AllPlans(run)[j]) == key;
    p := AllPlans(run)[j];
  }

  // So without a limit on links every hit that beats the threshold, for another node that shares no alias with
  // a processed orphan, has a link planned from the orphan's node to it.
  lemma EveryHitIsPlanned(run: Run, k: nat, hit: Hit, q: HealerPoint) returns (p: LinkPlan)
    requires run.maxLinks == None && k < |RunOrphans(run)| && (run.maxOrphans.Some? ==> k < run.maxOrphans.value)
    requires run.search(k).Hits? && hit in run.search(k).hits && hit.score > run.threshold
    requires WellNamed(RunOrphans(run)[k]) && StandsFor(RunOrphans(run)[k].collection, hit, run.points, q)
    requires q.nodeId != RunOrphans(run)[k].nodeId && forall a <- q.aliases :: a !in RunOrphans(run)[k].aliases
    ensures p in AllPlans(run) && p.source.nodeId == RunOrphans(run)[k].nodeId && p.target.nodeId == q.nodeId
  {
    var orphan := RunOrphans(run)[k];
    ResolveIff(orphan.collection, hit, run.points, q);
    var n := HitBringsNode(orphan, run.search(k).hits, run.threshold, IndexByAlias(run.points), hit);
    p := LinkIsPlanned(run, k, n);
  }

  lemma NotKnown(graph: Graph, key: EdgeKey)
    requires key.source !in Mentioned(graph)
    ensures key !in EdgeKeys(graph)
  {
    if key in EdgeKeys(graph) { EdgesStartAtMentioned(graph, key); }
  }

  // Whenever two orphans of one node find one other node, and this is newer than the one orphan and not
  // newer than the other, a run without a limit on links plans a cycle through an UPGRADES link.
  lemma TimesApartGiveCycle(run: Run, i: nat, j: nat, m: Neighbor, n: Neighbor) returns (walk: seq<LinkPlan>)
    requires run.maxLinks == None && i < Processed(run) && j < Processed(run)
    requires m in RunNeighbors(run, i) && n in RunNeighbors(run, j) && m.point.nodeId == n.point.nodeId
    requires var early, late := RunOrphans(run)[i], RunOrphans(run)[j];
      && WellNamed(early) && WellNamed(late) && early.nodeId == late.nodeId != m.point.nodeId
      && early.time < m.point.time && n.point.time <= late.time
    ensures IsCycle(walk, AllPlans(run)) && walk[0].kind == UPGRADES
  {
    var up := LinkIsPlanned(run, i, m);
    var down := LinkIsPlanned(run, j, n);
    walk := [up, down];
    assert Follows(walk[0], walk[1]) && Follows(walk[1], walk[0]);
  }

  // Such a run: two scanned points share the node "a" with times 1 and 5, and each finds the point "b" of
  // time 3.
  lemma UpgradeCycleCounterRun() returns (run: Run, walk: seq<LinkPlan>)
    ensures IsCycle(walk, AllPlans(run)) && walk[0].kind == UPGRADES
  {
    var early, late := HealerPoint("c", "p1", "a", {"p1", "a"}, 1), HealerPoint("c", "p2", "a", {"p2", "a"}, 5);
    var b := HealerPoint("c", "p3", "b", {"p3", "b"}, 3);
    run := Run([early, late], map[], _ => Hits([Hit("p3", 1.0, Fields("b", "", "", [], [], 3))]), 0.5, None, None);
    CounterOrphans(run, early, late, b);
    var m := RunNeighbors(run, 0)[0];
    var n := RunNeighbors(run, 1)[0];
    walk := TimesApartGiveCycle(run, 0, 1, m, n);
  }

  lemma CounterHit(b: HealerPoint)
    requires b == HealerPoint("c", "p3", "b", {"p3", "b"}, 3)
    ensures PointFrom("c", "p3", Fields("b", "", "", [], [], 3)) == Some(b)
  {
    assert Strip("p3") == "p3" && Strip("b") == "b" && Strip("") == "";
    var texts := ["p3", "b", "", ""] + [] + [];
    assert texts[0] == "p3" && texts[1] == "b" && texts[2] == "" && texts[3] == "";
    assert forall t <- texts :: t == "p3" || t == "b" || t == "";
    assert NonBlank(texts) == {"p3", "b"};
  }

  lemma CounterOrphans(run: Run, early: HealerPoint, late: HealerPoint, b: HealerPoint)
    requires early == HealerPoint("c", "p1", "a", {"p1", "a"}, 1) && late == HealerPoint("c", "p2", "a", {"p2", "a"}, 5)
    requires b == HealerPoint("c", "p3", "b", {"p3", "b"}, 3)
    requires run.points == [early, late] && run.graph == map[] && run.threshold == 0.5
    requires run.search(0) == run.search(1) == Hits([Hit("p3", 1.0, Fields("b", "", "", [], [], 3))])
    ensures RunOrphans(run) == [early, late]
    ensures RunNeighbors(run, 0) == RunNeighbors(run, 1) == [Neighbor(b, 1.0)]
  {
    assert Mentioned(run.graph) == {} && EdgeKeys(run.graph) == {};
    assert run.points[..1] == [early] && [early][..0] == [];
    assert Orphans([early], run.graph) == [early];
    assert RunOrphans(run) == [early, late];
    var index := IndexByAlias(run.points);
    assert "p3" !in index by {
      assert IndexByAlias([]).Keys == {};
      assert IndexByAlias([early]).Keys == {"p1", "a"};
    }
    CounterNeighbors(early, index, b);
    CounterNeighbors(late, index, b);
  }

  lemma CounterNeighbors(point: HealerPoint, index: map<string, HealerPoint>, b: HealerPoint)
    requires b == HealerPoint("c", "p3", "b", {"p3", "b"}, 3) && "p3" !in index
    requires point.collection == "c" && "p3" !in point.aliases && "b" !in point.aliases
    ensures Neighbors(point, [Hit("p3", 1.0, Fields("b", "", "", [], [], 3))], 0.5, index) == [Neighbor(b, 1.0)]
  {
    var hit := Hit("p3", 1.0, Fields("b", "", "", [], [], 3));
    CounterHit(b);
    assert Strip("p3") == "p3";
    assert Resolve("c", hit, index) == Some(b);
    assert point.aliases * b.aliases == {};
    assert [hit][..0] == [];
  }

  // ---------------------------------------------------------------- progress over runs

  lemma {:induction false} AddAllKeeps(graph: Graph, plans: seq<LinkPlan>)
    ensures Mentioned(graph) <= Mentioned(AddAll(graph, plans))
  {
    if plans != [] {
      AddAllKeeps(graph, plans[..|plans| - 1]);
      AddLinkMentions(AddAll(graph, plans[..|plans| - 1]), plans[|plans| - 1]);
    }
  }

  lemma {:induction false} AddAllMentions(graph: Graph, plans: seq<LinkPlan>, p: LinkPlan)
    requires p in plans && Strip(p.source.nodeId) == p.source.nodeId != ""
    ensures p.source.nodeId in Mentioned(AddAll(graph, plans))
  {
    var init, last := plans[..|plans| - 1], plans[|plans| - 1];
    AddLinkMentions(AddAll(graph, init), last);
    InFrontOrLast(plans, p);
    if p != last { AddAllMentions(graph, init, p); }
  }

  lemma InFrontOrLast<T>(s: seq<T>, x: T)
    requires x in s
    ensures x in s[..|s| - 1] || x == s[|s| - 1]
  {
    var i :| 0 <= i < |s| && s[i] == x;
    if i < |s| - 1 { assert s[..|s| - 1][i] == x; }
  }

  lemma AddLinkMentions(graph: Graph, p: LinkPlan)
    ensures Mentioned(graph) <= Mentioned(AddLink(graph, p))
    ensures Strip(p.source.nodeId) == p.source.nodeId != "" ==> p.source.nodeId in Mentioned(AddLink(graph, p))
  {
    var after := AddLink(graph, p);
    forall s, l | s in graph && l in graph[s] ensures s in after && l in after[s] { }
    assert p.source.nodeId in after;
  }

  // The graph a run leaves has no new orphans among the same points.
  lemma OrphansShrink(run: Run, dryRun: bool, linkOk: nat -> bool, p: HealerPoint)
    requires p in Orphans(run.points, AddAll(run.graph, Applied(AllPlans(run), dryRun, linkOk)))
    ensures p in RunOrphans(run) && ("" !in p.aliases ==> Unmentioned(run.graph, p))
  {
    var applied := Applied(AllPlans(run), dryRun, linkOk);
    AddAllKeeps(run.graph, applied);
    OrphanWithout(run.points, AddAll(run.graph, applied), p);
    OrphanWithout(run.points, run.graph, p);
    if "" !in p.aliases { UnmentionedIff(run.graph, p); }
  }

  // A point whose link was written was an orphan and is one no longer: no later run plans from it.
  lemma HealedForGood(run: Run, linkOk: nat -> bool, a: LinkPlan)
    requires WellNamed(a.source) && Strip(a.source.nodeId) == a.source.nodeId != ""
    requires a in Succeeded(AllPlans(run), linkOk)
    ensures a.source in RunOrphans(run) && Unmentioned(run.graph, a.source)
    ensures var after := AddAll(run.graph, Succeeded(AllPlans(run), linkOk));
      !Unmentioned(after, a.source) && a.source !in Orphans(run.points, after)
  {
    var applied := Succeeded(AllPlans(run), linkOk);
    AppliedArePlanned(AllPlans(run), linkOk);
    PlansAreGood(PlanningOf(run), Processed(run));
    GoodPlanAt(PlanningOf(run), AllPlans(run), a);
    AddAllMentions(run.graph, applied, a);
    MentionedIsNoOrphan(run.points, AddAll(run.graph, applied), a.source);
    OrphanIff(run.points, run.graph, a.source);
    OrphanIff(run.points, AddAll(run.graph, applied), a.source);
    OrphanWithout(run.points, run.graph, a.source);
  }

  lemma MentionedIsNoOrphan(points: seq<HealerPoint>, graph: Graph, p: HealerPoint)
    requires WellNamed(p) && p.nodeId in Mentioned(graph)
    ensures p !in Orphans(points, graph)
  {
    OrphanWithout(points, graph, p);
    if Mentioned(graph) * p.aliases == {} { UnmentionedByName(Mentioned(graph), p); }
  }
}
