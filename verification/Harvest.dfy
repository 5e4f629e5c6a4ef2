/** Harvesting of the crystallizer (scripts/bhm_crystallize_worker_base.py:466-480, 746-812): which
    stored items become records, in which order, and how all of them are accounted for.  How a text
    is classified is left open: a reader gives the verdict, the signature, the score and the topic. */
module Harvest {
  import opened Text
  import opened Seqs
  import opened Payloads
  import opened Sorting

  const DefaultProject := "e-github-workspace"

  datatype Kind = MemoryItem | ObservationItem

  /** A stored memory or observation.  The event id is that of an observation, or else its id; status
      and lifecycle are stripped and in lower case, empty when missing. */
  datatype Item = Item(kind: Kind, eventId: string, id: string, project: Option<string>,
                       status: string, lifecycle: string, archivedAt: bool, body: string)

  datatype Verdict = Accepted | Empty | DebugSpam

  datatype Reader = Reader(reason: Item -> Verdict, signature: Item -> string, score: Item -> int,
                           topic: Item -> string, time: Item -> string)

  datatype Record = Record(kind: Kind, id: string, project: string, item: Item, signature: string, duplicate: bool)

  // item_lifecycle
  function Lifecycle(item: Item): string {
    if item.status != "" then item.status
    else if item.lifecycle != "" then item.lifecycle
    else if item.archivedAt then "archived"
    else "active"
  }

  predicate IsActive(item: Item) { Lifecycle(item) !in {"archived", "deprecated"} }

  // The project of a normalized record.
  function ProjectOf(item: Item): string {
    Strip(if item.project.Some? && item.project.value != "" then item.project.value else DefaultProject)
  }

  // An item without an id is not normalized, and counts as empty.
  function VerdictOf(item: Item, rd: Reader): Verdict {
    if Strip(item.id) == "" then Empty else rd.reason(item)
  }

  predicate IsAccepted(item: Item, rd: Reader) { IsActive(item) && VerdictOf(item, rd) == Accepted }

  function RecordOf(item: Item, rd: Reader, duplicate: bool): Record {
    Record(item.kind, Strip(item.id), ProjectOf(item), item, rd.signature(item), duplicate)
  }

  // ---------------------------------------------------------------- accounting

  datatype Tally = Tally(active: nat, empty: nat, debugSpam: nat, duplicates: nat, seen: set<string>, kept: seq<Record>)

  const NoItems: Tally := Tally(0, 0, 0, 0, {}, [])

  function Absorb(t: Tally, item: Item, rd: Reader): Tally {
    if !IsActive(item) then t
    else
      match VerdictOf(item, rd)
      case Empty => t.(active := t.active + 1, empty := t.empty + 1)
      case DebugSpam => t.(active := t.active + 1, debugSpam := t.debugSpam + 1)
      case Accepted => Keep(t.(active := t.active + 1), RecordOf(item, rd, rd.signature(item) in t.seen))
  }

  // An accepted record; one whose signature was seen is a duplicate, and is kept all the same.
  function Keep(t: Tally, r: Record): Tally {
    t.(duplicates := if r.duplicate then t.duplicates + 1 else t.duplicates,
       seen := if r.duplicate then t.seen else t.seen + {r.signature},
       kept := t.kept + [r])
  }

  function AbsorbAll(items: seq<Item>, rd: Reader): Tally {
    if items == [] then NoItems else Absorb(AbsorbAll(items[..|items| - 1], rd), items[|items| - 1], rd)
  }

  function Signatures(records: seq<Record>): set<string> { set r <- records :: r.signature }

  function ItemsOf(records: seq<Record>): seq<Item> {
    if records == [] then [] else ItemsOf(records[..|records| - 1]) + [records[|records| - 1].item]
  }

  // A record is flagged exactly when an earlier one has its signature.
  ghost predicate FlagsAreExact(records: seq<Record>) {
    forall i | 0 <= i < |records| ::
      records[i].duplicate <==> records[i].signature in Signatures(records[..i])
  }

  lemma SignaturesSnoc(records: seq<Record>, r: Record)
    ensures Signatures(records + [r]) == Signatures(records) + {r.signature}
  {
    assert forall q :: q in records + [r] <==> q in records || q == r;
  }

  lemma FlagsSnoc(records: seq<Record>, r: Record)
    requires FlagsAreExact(records) && (r.duplicate <==> r.signature in Signatures(records))
    ensures FlagsAreExact(records + [r])
  {
    var all := records + [r];
    forall i | 0 <= i < |all| ensures all[i].duplicate <==> all[i].signature in Signatures(all[..i]) {
      if i < |records| { assert all[..i] == records[..i]; } else { assert all[..i] == records; }
    }
  }

  // Neither archived nor deprecated: by its status, else by its lifecycle, else by the time of archiving.
  ghost predicate Alive(x: Item) {
    if x.status != "" then x.status != "archived" && x.status != "deprecated"
    else if x.lifecycle != "" then x.lifecycle != "archived" && x.lifecycle != "deprecated"
    else !x.archivedAt
  }

  // Every active item is accepted, empty or spam; the accepted ones are kept in order; the duplicates
  // are as many as the kept ones exceed their signatures, and are flagged.
  ghost predicate Accounted(t: Tally, items: seq<Item>, rd: Reader) {
    && t.active == |Filter(items, x => Alive(x))|
    && t.empty == |Filter(items, x => Alive(x) && (Strip(x.id) == "" || rd.reason(x) == Empty))|
    && t.active == |t.kept| + t.empty + t.debugSpam
    && KeptProperly(t, items, rd)
  }

  ghost predicate KeptProperly(t: Tally, items: seq<Item>, rd: Reader) {
    Consistent(t) && ItemsOf(t.kept) == Filter(items, AcceptedBy(rd))
  }

  ghost predicate Consistent(t: Tally) {
    t.seen == Signatures(t.kept) && t.duplicates == |t.kept| - |t.seen| && FlagsAreExact(t.kept)
  }

  function AcceptedBy(rd: Reader): Item -> bool { x => IsAccepted(x, rd) }

  lemma {:induction false} ItemsAreAccounted(items: seq<Item>, rd: Reader)
    ensures Accounted(AbsorbAll(items, rd), items, rd)
  {
    if items != [] {
      var init, last := items[..|items| - 1], items[|items| - 1];
      ItemsAreAccounted(init, rd);
      AbsorbAccounts(AbsorbAll(init, rd), init, last, rd);
      assert items == init + [last];
    }
  }

  lemma AbsorbAccounts(t: Tally, items: seq<Item>, item: Item, rd: Reader)
    requires Accounted(t, items, rd)
    ensures Accounted(Absorb(t, item, rd), items + [item], rd)
  {
    FilterSnoc(items, item, x => Alive(x));
    FilterSnoc(items, item, x => Alive(x) && (Strip(x.id) == "" || rd.reason(x) == Empty));
    AbsorbKeeps(t, items, item, rd);
  }

  lemma AbsorbKeeps(t: Tally, items: seq<Item>, item: Item, rd: Reader)
    requires KeptProperly(t, items, rd)
    ensures KeptProperly(Absorb(t, item, rd), items + [item], rd)
  {
    FilterSnoc(items, item, AcceptedBy(rd));
    if IsAccepted(item, rd) {
      var r := RecordOf(item, rd, rd.signature(item) in t.seen);
      KeepIsConsistent(t.(active := t.active + 1), r);
      ItemsOfSnoc(t.kept, r);
    }
  }

  lemma KeepIsConsistent(t: Tally, r: Record)
    requires Consistent(t) && (r.duplicate <==> r.signature in t.seen)
    ensures Consistent(Keep(t, r))
  {
    SignaturesSnoc(t.kept, r);
    FlagsSnoc(t.kept, r);
    assert r.signature in t.seen ==> t.seen + {r.signature} == t.seen;
  }

  lemma ItemsOfSnoc(records: seq<Record>, r: Record)
    ensures ItemsOf(records + [r]) == ItemsOf(records) + [r.item]
  {
    assert (records + [r])[..|records|] == records;
  }

  // ---------------------------------------------------------------- versions of observations

  predicate SameEvent(x: Item, y: Item) { x.eventId == y.eventId && x.eventId != "" }

  ghost predicate HasEvent(items: seq<Item>, x: Item) { exists y <- items :: SameEvent(x, y) }

  // The items that are not further versions of an earlier one; without an event id none is.
  ghost function FirstVersions(items: seq<Item>): seq<Item> {
    if items == [] then []
    else
      var rest, last := FirstVersions(items[..|items| - 1]), items[|items| - 1];
      if HasEvent(items[..|items| - 1], last) then rest else rest + [last]
  }

  // The last version of an item.
  function LastVersion(items: seq<Item>, x: Item): Item {
    if items == [] then x
    else if SameEvent(x, items[|items| - 1]) then items[|items| - 1]
    else LastVersion(items[..|items| - 1], x)
  }

  function LastVersions(firsts: seq<Item>, items: seq<Item>): seq<Item> {
    if firsts == [] then []
    else LastVersions(firsts[..|firsts| - 1], items) + [LastVersion(items, firsts[|firsts| - 1])]
  }

  ghost function Latest(items: seq<Item>): seq<Item> { LastVersions(FirstVersions(items), items) }

  lemma {:induction false} LastVersionsAt(firsts: seq<Item>, items: seq<Item>)
    ensures |LastVersions(firsts, items)| == |firsts|
    ensures forall i | 0 <= i < |firsts| :: LastVersions(firsts, items)[i] == LastVersion(items, firsts[i])
  {
    if firsts != [] { LastVersionsAt(firsts[..|firsts| - 1], items); }
  }

  ghost predicate DistinctEvents(items: seq<Item>) {
    forall i, j | 0 <= i < j < |items| :: !SameEvent(items[i], items[j])
  }

  lemma {:induction false} FirstVersionsProper(items: seq<Item>)
    ensures DistinctEvents(FirstVersions(items))
    ensures forall x :: HasEvent(FirstVersions(items), x) <==> HasEvent(items, x)
  {
    if items != [] {
      var init, last := items[..|items| - 1], items[|items| - 1];
      FirstVersionsProper(init);
      var rest, firsts := FirstVersions(init), FirstVersions(items);
      assert items == init + [last];
      forall x ensures HasEvent(firsts, x) <==> HasEvent(items, x) {
        EventSnoc(init, last, x);
        EventSnoc(rest, last, x);
        if SameEvent(x, last) && HasEvent(init, last) { SameEventsHaveIt(init, x, last); }
      }
      if !HasEvent(init, last) { NotSame(rest, last); }
    }
  }

  lemma EventSnoc(items: seq<Item>, last: Item, x: Item)
    ensures HasEvent(items + [last], x) <==> HasEvent(items, x) || SameEvent(x, last)
  {
    assert forall y :: y in items + [last] <==> y in items || y == last;
  }

  lemma SameEventsHaveIt(items: seq<Item>, x: Item, y: Item)
    requires SameEvent(x, y) && HasEvent(items, y)
    ensures HasEvent(items, x)
  {
    var z :| z in items && SameEvent(y, z);
    assert SameEvent(x, z);
  }

  // What is left has one item per event, and for every item the last version of it.
  lemma LatestIsExact(items: seq<Item>)
    ensures DistinctEvents(Latest(items))
    ensures forall x <- items :: LastVersion(items, x) in Latest(items)
  {
    var firsts, latest := FirstVersions(items), Latest(items);
    FirstVersionsProper(items);
    LastVersionsAt(firsts, items);
    forall i, j | 0 <= i < j < |latest| ensures !SameEvent(latest[i], latest[j]) {
      VersionIsSame(items, firsts[i]);
      VersionIsSame(items, firsts[j]);
      assert !SameEvent(firsts[i], firsts[j]);
    }
    forall x | x in items ensures LastVersion(items, x) in latest {
      if x.eventId == "" {
        NamelessStay(items, x);
        var i :| 0 <= i < |firsts| && firsts[i] == x;
        assert latest[i] == LastVersion(items, x);
      } else {
        assert SameEvent(x, x) && HasEvent(items, x) && HasEvent(firsts, x);
        var y :| y in firsts && SameEvent(x, y);
        var i :| 0 <= i < |firsts| && firsts[i] == y;
        SameLastVersion(items, x, y);
        assert latest[i] == LastVersion(items, x);
      }
    }
  }

  lemma {:induction false} VersionIsSame(items: seq<Item>, x: Item)
    ensures LastVersion(items, x).eventId == x.eventId
  {
    if items != [] { VersionIsSame(items[..|items| - 1], x); }
  }

  lemma {:induction false} NamelessStay(items: seq<Item>, x: Item)
    requires x in items && x.eventId == ""
    ensures x in FirstVersions(items) && LastVersion(items, x) == x
  {
    var init, last := items[..|items| - 1], items[|items| - 1];
    assert items == init + [last];
    assert forall y :: !SameEvent(x, y) && !SameEvent(y, x);
    NoOtherVersion(items, x);
    if x in init { NamelessStay(init, x); }
  }

  lemma {:induction false} SameLastVersion(items: seq<Item>, x: Item, y: Item)
    requires SameEvent(x, y) && HasEvent(items, x)
    ensures LastVersion(items, x) == LastVersion(items, y)
  {
    var init, last := items[..|items| - 1], items[|items| - 1];
    if !SameEvent(x, last) {
      assert items == init + [last];
      EventSnoc(init, last, x);
      SameLastVersion(init, x, y);
    }
  }

  // With one item per event there is nothing to merge.
  lemma {:induction false} DistinctEventsStay(items: seq<Item>)
    requires DistinctEvents(items)
    ensures Latest(items) == items
  {
    AllAreFirst(items);
    LastVersionsAt(items, items);
    forall i | 0 <= i < |items| ensures LastVersion(items, items[i]) == items[i] { OwnVersion(items, i); }
  }

  lemma {:induction false} AllAreFirst(items: seq<Item>)
    requires DistinctEvents(items)
    ensures FirstVersions(items) == items
  {
    if items != [] {
      var init, last := items[..|items| - 1], items[|items| - 1];
      AllAreFirst(init);
      forall y | y in init ensures !SameEvent(last, y) {
        var i :| 0 <= i < |init| && init[i] == y;
        assert !SameEvent(items[i], items[|items| - 1]);
      }
    }
  }

  lemma {:induction false} OwnVersion(items: seq<Item>, i: nat)
    requires DistinctEvents(items) && i < |items|
    ensures LastVersion(items, items[i]) == items[i]
  {
    var n := |items| - 1;
    if i < n {
      assert items[..n][i] == items[i];
      OwnVersion(items[..n], i);
    } else {
      NoOtherVersion(items[..n], items[n]);
    }
  }

  lemma {:induction false} NoOtherVersion(items: seq<Item>, x: Item)
    requires forall i | 0 <= i < |items| :: !SameEvent(items[i], x)
    ensures LastVersion(items, x) == x
  {
    if items != [] { NoOtherVersion(items[..|items| - 1], x); }
  }

  lemma FirstVersionsSnoc(past: seq<Item>, item: Item)
    ensures FirstVersions(past + [item]) == FirstVersions(past) + (if HasEvent(past, item) then [] else [item])
  {
    assert (past + [item])[..|past|] == past;
  }

  lemma LastVersionSnoc(past: seq<Item>, item: Item, x: Item)
    ensures LastVersion(past + [item], x) == if SameEvent(x, item) then item else LastVersion(past, x)
  {
    assert (past + [item])[..|past|] == past;
  }

  // A further version of an event takes the place of the version before it.
  lemma ReplaceVersion(past: seq<Item>, item: Item, p: nat)
    requires p < |FirstVersions(past)| && SameEvent(FirstVersions(past)[p], item)
    ensures FirstVersions(past + [item]) == FirstVersions(past)
    ensures |Latest(past)| == |FirstVersions(past)| && Latest(past + [item]) == Latest(past)[p := item]
  {
    var firsts := FirstVersions(past);
    FirstVersionsProper(past);
    assert firsts[p] in firsts && SameEvent(item, firsts[p]);
    assert HasEvent(firsts, item);
    FirstVersionsSnoc(past, item);
    LastVersionsAt(firsts, past);
    LastVersionsAt(firsts, past + [item]);
    forall i | 0 <= i < |firsts| ensures LastVersions(firsts, past + [item])[i] == Latest(past)[p := item][i] {
      LastVersionSnoc(past, item, firsts[i]);
      if i != p && SameEvent(firsts[i], item) { OnePosition(firsts, i, p); }
    }
  }

  lemma OnePosition(items: seq<Item>, i: nat, j: nat)
    requires DistinctEvents(items) && i < |items| && j < |items| && SameEvent(items[i], items[j])
    ensures i == j
  {
  }

  // A new event comes last.
  lemma AddVersion(past: seq<Item>, item: Item)
    requires !HasEvent(past, item)
    ensures FirstVersions(past + [item]) == FirstVersions(past) + [item]
    ensures |Latest(past)| == |FirstVersions(past)| && Latest(past + [item]) == Latest(past) + [item]
  {
    var firsts := FirstVersions(past);
    FirstVersionsProper(past);
    FirstVersionsSnoc(past, item);
    SameVersions(firsts, past, item);
    assert (firsts + [item])[..|firsts|] == firsts;
    NotSame(past, item);
    NoOtherVersion(past, item);
    LastVersionSnoc(past, item, item);
    LastVersionsAt(firsts, past);
  }

  lemma {:induction false} SameVersions(firsts: seq<Item>, past: seq<Item>, item: Item)
    requires !HasEvent(firsts, item)
    ensures LastVersions(firsts, past + [item]) == LastVersions(firsts, past)
  {
    if firsts != [] {
      var init, last := firsts[..|firsts| - 1], firsts[|firsts| - 1];
      EventSnoc(init, last, item);
      assert firsts == init + [last];
      SameVersions(init, past, item);
      LastVersionSnoc(past, item, last);
    }
  }

  // The positions of the events seen so far.
  ghost predicate Positions(positions: map<string, nat>, firsts: seq<Item>) {
    && (forall id <- positions :: positions[id] < |firsts| && firsts[positions[id]].eventId == id && id != "")
    && (forall i | 0 <= i < |firsts| && firsts[i].eventId != "" :: firsts[i].eventId in positions)
  }

  lemma NoPosition(positions: map<string, nat>, past: seq<Item>, item: Item)
    requires Positions(positions, FirstVersions(past)) && (item.eventId == "" || item.eventId !in positions)
    ensures !HasEvent(past, item)
  {
    var firsts := FirstVersions(past);
    FirstVersionsProper(past);
    forall y | y in firsts ensures !SameEvent(item, y) {
      var i :| 0 <= i < |firsts| && firsts[i] == y;
      assert y.eventId != "" ==> y.eventId in positions;
    }
  }

  lemma AddPosition(positions: map<string, nat>, firsts: seq<Item>, item: Item)
    requires Positions(positions, firsts) && (item.eventId == "" || item.eventId !in positions)
    ensures Positions(if item.eventId == "" then positions else positions[item.eventId := |firsts|], firsts + [item])
  {
  }

  // The loop over the observations: the last version of each event, at the position of its first one.
  method DedupeObservations(observations: seq<Item>) returns (sources: seq<Item>)
    ensures sources == Latest(observations)
  {
    sources := [];
    var positions: map<string, nat> := map[];
    for i := 0 to |observations|
      invariant sources == Latest(observations[..i])
      invariant Positions(positions, FirstVersions(observations[..i]))
    {
      sources, positions := PlaceObservation(observations[..i], observations[i], sources, positions);
      assert observations[..i + 1] == observations[..i] + [observations[i]];
    }
    assert observations[..|observations|] == observations;
  }

  method PlaceObservation(ghost past: seq<Item>, item: Item, sources: seq<Item>, positions: map<string, nat>)
    returns (next: seq<Item>, nextPositions: map<string, nat>)
    requires sources == Latest(past) && Positions(positions, FirstVersions(past))
    ensures next == Latest(past + [item]) && Positions(nextPositions, FirstVersions(past + [item]))
  {
    if item.eventId != "" && item.eventId in positions {
      var p := positions[item.eventId];
      ReplaceVersion(past, item, p);
      next, nextPositions := sources[p := item], positions;
    } else {
      NoPosition(positions, past, item);
      AddVersion(past, item);
      AddPosition(positions, FirstVersions(past), item);
      next := sources + [item];
      nextPositions := if item.eventId == "" then positions else positions[item.eventId := |sources|];
    }
  }

  lemma NotSame(firsts: seq<Item>, item: Item)
    requires !HasEvent(firsts, item)
    ensures forall i | 0 <= i < |firsts| :: !SameEvent(firsts[i], item)
  {
    forall i | 0 <= i < |firsts| ensures !SameEvent(firsts[i], item) {
      assert firsts[i] in firsts && !SameEvent(item, firsts[i]);
    }
  }

  // ---------------------------------------------------------------- the harvest

  function ByScore(rd: Reader): (Record, Record) -> bool {
    (x: Record, y: Record) => ScoreGe(x, y, rd)
  }

  predicate ScoreGe(x: Record, y: Record, rd: Reader) {
    || rd.score(x.item) > rd.score(y.item)
    || (rd.score(x.item) == rd.score(y.item) && TextGe(rd.time(x.item), rd.time(y.item)))
  }

  lemma ByScoreIsTotal(rd: Reader)
    ensures TotalPreorder(ByScore(rd))
  {
    forall x: Record, y: Record ensures ByScore(rd)(x, y) || ByScore(rd)(y, x) {
      TextGeTotal(rd.time(x.item), rd.time(y.item));
    }
    forall x: Record, y: Record, z: Record | ByScore(rd)(x, y) && ByScore(rd)(y, z) ensures ByScore(rd)(x, z) {
      if TextGe(rd.time(x.item), rd.time(y.item)) && TextGe(rd.time(y.item), rd.time(z.item)) {
        TextGeTransitive(rd.time(x.item), rd.time(y.item), rd.time(z.item));
      }
    }
  }

  lemma {:induction false} KeptAreRecords(items: seq<Item>, rd: Reader, r: Record)
    requires r in AbsorbAll(items, rd).kept
    ensures r == RecordOf(r.item, rd, r.duplicate) && r.item in items && IsAccepted(r.item, rd)
  {
    var init, last := items[..|items| - 1], items[|items| - 1];
    assert items == init + [last];
    if r in AbsorbAll(init, rd).kept { KeptAreRecords(init, rd, r); }
  }

  lemma {:induction false} AcceptedAreKept(items: seq<Item>, rd: Reader, x: Item) returns (r: Record)
    requires x in items && IsAccepted(x, rd)
    ensures r in AbsorbAll(items, rd).kept && r.item == x
  {
    var init, last := items[..|items| - 1], items[|items| - 1];
    assert items == init + [last];
    if x == last {
      r := RecordOf(x, rd, rd.signature(x) in AbsorbAll(init, rd).seen);
      assert AbsorbAll(items, rd).kept == AbsorbAll(init, rd).kept + [r];
    } else {
      r := AcceptedAreKept(init, rd, x);
    }
  }

  // ---------------------------------------------------------------- what is harvested, from the items

  ghost predicate Usable(x: Item, rd: Reader) { Alive(x) && Strip(x.id) != "" && rd.reason(x) == Accepted }

  // The record says of its item what the worker reads off it.
  ghost predicate Describes(r: Record, x: Item, rd: Reader) {
    && r.item == x && r.kind == x.kind && r.id == Strip(x.id) && r.signature == rd.signature(x)
    && (x.project == None || x.project == Some("") ==> r.project == Strip("e-github-workspace"))
    && (x.project.Some? && x.project.value != "" ==> r.project == Strip(x.project.value))
  }

  lemma UsableIff(x: Item, rd: Reader)
    ensures Usable(x, rd) <==> IsAccepted(x, rd)
  {
  }

  // Ahead by the score, or with the same score not earlier.
  ghost predicate RanksBefore(x: Item, y: Item, rd: Reader) {
    && rd.score(x) >= rd.score(y)
    && (rd.score(x) == rd.score(y) ==> NotEarlier(rd.time(x), rd.time(y)))
  }

  lemma RanksBeforeIff(x: Record, y: Record, rd: Reader)
    ensures RanksBefore(x.item, y.item, rd) <==> ByScore(rd)(x, y)
  {
    TextGeIff(rd.time(x.item), rd.time(y.item));
  }

  ghost predicate Ranked(records: seq<Record>, rd: Reader) {
    forall i, j | 0 <= i < j < |records| :: RanksBefore(records[i].item, records[j].item, rd)
  }

  lemma InOrderIsRanked(records: seq<Record>, rd: Reader)
    requires InOrder(records, ByScore(rd))
    ensures Ranked(records, rd)
  {
    forall i, j | 0 <= i < j < |records| ensures RanksBefore(records[i].item, records[j].item, rd) {
      RanksBeforeIff(records[i], records[j], rd);
      assert ByScore(rd)(records[i], records[j]);
    }
  }

  // The records are those of the usable items, ranked.
  ghost predicate RecordsOfUsable(records: seq<Record>, sources: seq<Item>, rd: Reader) {
    && (forall r <- records :: r.item in sources && Usable(r.item, rd) && Describes(r, r.item, rd))
    && (forall x <- sources | Usable(x, rd) :: exists r <- records :: r.item == x)
    && Ranked(records, rd)
  }

  lemma HarvestedAreUsable(memories: seq<Item>, observations: seq<Item>, rd: Reader)
    ensures RecordsOfUsable(Harvested(memories, observations, rd), Sources(memories, observations), rd)
  {
    var sources := Sources(memories, observations);
    var kept, records := AbsorbAll(sources, rd).kept, Harvested(memories, observations, rd);
    forall r | r in records ensures r.item in sources && Usable(r.item, rd) && Describes(r, r.item, rd) {
      InSorted(kept, ByScore(rd), r);
      KeptAreRecords(sources, rd, r);
      UsableIff(r.item, rd);
    }
    forall x | x in sources && Usable(x, rd) ensures exists r <- records :: r.item == x {
      UsableIff(x, rd);
      var r := AcceptedAreKept(sources, rd, x);
      InSorted(kept, ByScore(rd), r);
    }
    ByScoreIsTotal(rd);
    SortedInOrder(kept, ByScore(rd));
    InOrderIsRanked(records, rd);
  }

  datatype Stats = Stats(active: nat, empty: nat, debugSpam: nat, duplicates: nat, accepted: nat)

  ghost function Sources(memories: seq<Item>, observations: seq<Item>): seq<Item> { memories + Latest(observations) }

  ghost function Harvested(memories: seq<Item>, observations: seq<Item>, rd: Reader): seq<Record> {
    Sorted(AbsorbAll(Sources(memories, observations), rd).kept, ByScore(rd))
  }

  // harvest_records, from what the two stores hold.
  method HarvestRecords(memories: seq<Item>, observations: seq<Item>, rd: Reader)
    returns (records: seq<Record>, stats: Stats)
    ensures records == Harvested(memories, observations, rd)
    ensures RecordsOfUsable(records, Sources(memories, observations), rd)
    ensures var t := AbsorbAll(Sources(memories, observations), rd);
      stats == Stats(t.active, t.empty, t.debugSpam, t.duplicates, |records|)
  {
    var t := AbsorbItems([], NoItems, memories, rd);
    var sources := DedupeObservations(observations);
    assert [] + memories == memories;
    t := AbsorbItems(memories, t, sources, rd);
    records := Sorted(t.kept, ByScore(rd));
    HarvestedAreUsable(memories, observations, rd);
    stats := Stats(t.active, t.empty, t.debugSpam, t.duplicates, |records|);
  }

  // One of the two loops: the items of a store on top of what was taken before.
  method AbsorbItems(ghost before: seq<Item>, start: Tally, items: seq<Item>, rd: Reader) returns (t: Tally)
    requires start == AbsorbAll(before, rd)
    ensures t == AbsorbAll(before + items, rd)
  {
    t := start;
    assert before + items[..0] == before;
    for i := 0 to |items|
      invariant t == AbsorbAll(before + items[..i], rd)
    {
      NextOnTop(before, items, i);
      AbsorbSnoc(before + items[..i], items[i], rd);
      t := Absorb(t, items[i], rd);
    }
    assert items[..|items|] == items;
  }

  lemma NextOnTop<T>(before: seq<T>, items: seq<T>, i: nat)
    requires i < |items|
    ensures before + items[..i + 1] == (before + items[..i]) + [items[i]]
  {
  }

  lemma AbsorbSnoc(items: seq<Item>, item: Item, rd: Reader)
    ensures AbsorbAll(items + [item], rd) == Absorb(AbsorbAll(items, rd), item, rd)
  {
    assert (items + [item])[..|items|] == items;
  }

  // Every stored item is accounted for, and the records are a sorted permutation of the accepted ones.
  lemma HarvestAccounts(memories: seq<Item>, observations: seq<Item>, rd: Reader)
    ensures var sources, t, records := Sources(memories, observations), AbsorbAll(Sources(memories, observations), rd),
        Harvested(memories, observations, rd);
      && |Filter(sources, x => Alive(x))| == t.active == |records| + t.empty + t.debugSpam
      && t.empty == |Filter(sources, x => Alive(x) && (Strip(x.id) == "" || rd.reason(x) == Empty))|
      && t.duplicates == |records| - |Signatures(records)|
      && multiset(records) == multiset(t.kept) && InOrder(records, ByScore(rd))
      && ItemsOf(t.kept) == Filter(sources, AcceptedBy(rd))
  {
    var kept := AbsorbAll(Sources(memories, observations), rd).kept;
    ItemsAreAccounted(Sources(memories, observations), rd);
    ByScoreIsTotal(rd);
    SortedIsPermutation(kept, ByScore(rd));
    SortedInOrder(kept, ByScore(rd));
    forall r ensures r in Sorted(kept, ByScore(rd)) <==> r in kept { InSorted(kept, ByScore(rd), r); }
    assert Signatures(Sorted(kept, ByScore(rd))) == Signatures(kept);
  }
}
