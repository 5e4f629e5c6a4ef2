/** Map-reduce payload budgeting of the crystallizer worker
    (scripts/bhm_crystallize_worker_synthesis.py): packing log entries into bounded chunks,
    clipping a stage payload until its JSON encoding fits, merging intermediate summaries, and
    the run that strings them together around the size gate of the synthesis endpoint. */
module MapReduce {
  import opened Text
  import opened Seqs

  const MAX_PAYLOAD_CHARS := 20000
  const SEPARATOR := "\n\n"

  function ClipText(value: string, limit: int): (r: string)
    ensures r <= value
    ensures |r| == Max(0, Min(|value|, limit))
  {
    if limit <= 0 then "" else if |value| <= limit then value else value[..limit]
  }

  // ---------------------------------------------------------------- packing log entries

  // The entries that reach the packer: stripped, non-empty, cut at the limit.
  function CleanEntries(logs: seq<string>, limit: nat): seq<string> {
    if logs == [] then []
    else CleanEntries(logs[..|logs| - 1], limit) + CleanEntry(logs[|logs| - 1], limit)
  }

  function CleanEntry(log: string, limit: nat): seq<string> {
    if Strip(log) == "" then [] else [ClipText(Strip(log), limit)]
  }

  lemma CleanEntriesNext(logs: seq<string>, i: nat, limit: nat)
    requires i < |logs|
    ensures CleanEntries(logs[..i + 1], limit) == CleanEntries(logs[..i], limit) + CleanEntry(logs[i], limit)
  {
    assert logs[..i + 1][..i] == logs[..i];
  }

  function Flatten(groups: seq<seq<string>>): seq<string> {
    if groups == [] then [] else groups[0] + Flatten(groups[1..])
  }

  function JoinEach(groups: seq<seq<string>>): (r: seq<string>)
    ensures |r| == |groups|
    ensures forall i | 0 <= i < |r| :: r[i] == Join(groups[i], SEPARATOR)
  {
    seq(|groups|, i requires 0 <= i < |groups| => Join(groups[i], SEPARATOR))
  }

  // A cut of the entries into contiguous non-empty groups, each within the limit once joined.
  ghost predicate IsPacking(groups: seq<seq<string>>, entries: seq<string>, limit: nat) {
    && Flatten(groups) == entries
    && forall i | 0 <= i < |groups| :: groups[i] != [] && |Join(groups[i], SEPARATOR)| <= limit
  }

  // Joining the first entry of the next group to this one would break the limit.
  ghost predicate Overflows(group: seq<string>, next: seq<string>, limit: nat) {
    next != [] && |Join(group + [next[0]], SEPARATOR)| > limit
  }

  ghost predicate IsGreedy(groups: seq<seq<string>>, limit: nat) {
    forall i, j | 0 <= i < j < |groups| && j == i + 1 :: Overflows(groups[i], groups[j], limit)
  }

  lemma {:induction false} FlattenConcat(a: seq<seq<string>>, b: seq<seq<string>>)
    ensures Flatten(a + b) == Flatten(a) + Flatten(b)
  {
    if a == [] {
      assert a + b == b;
    } else {
      assert (a + b)[1..] == a[1..] + b;
      FlattenConcat(a[1..], b);
    }
  }

  lemma FlattenSnoc(groups: seq<seq<string>>, last: seq<string>)
    ensures Flatten(groups + [last]) == Flatten(groups) + last
  {
    FlattenConcat(groups, [last]);
    assert [last][1..] == [];
  }

  lemma {:induction false} JoinOfJoins(groups: seq<seq<string>>)
    requires forall i | 0 <= i < |groups| :: groups[i] != []
    ensures Join(JoinEach(groups), SEPARATOR) == Join(Flatten(groups), SEPARATOR)
  {
    if |groups| == 1 {
      assert Flatten(groups) == groups[0] + Flatten([]) == groups[0];
    } else if |groups| > 1 {
      var tail := groups[1..];
      forall i | 0 <= i < |tail| ensures tail[i] != [] { assert tail[i] == groups[i + 1]; }
      JoinOfJoins(tail);
      assert JoinEach(groups)[1..] == JoinEach(tail);
      assert tail[0] == groups[1];
      JoinConcat(groups[0], Flatten(tail), SEPARATOR);
    }
  }

  lemma JoinOfInfix(pre: seq<string>, mid: seq<string>, post: seq<string>)
    ensures |Join(mid, SEPARATOR)| <= |Join(pre + mid + post, SEPARATOR)|
  {
    if mid != [] {
      if pre != [] { JoinConcat(pre, mid, SEPARATOR); } else { assert pre + mid == mid; }
      if post != [] { JoinConcat(pre + mid, post, SEPARATOR); } else { assert pre + mid + post == pre + mid; }
    }
  }

  // A group that starts no later than a greedy one and ends past it holds the overflowing entry.
  lemma GroupCannotOutreach(skipped: seq<string>, group: seq<string>, next: seq<string>, later: seq<string>,
                            head: seq<string>, tail: seq<string>, limit: nat)
    requires Overflows(group, next, limit)
    requires skipped + (group + (next + later)) == head + tail
    requires |head| > |skipped| + |group|
    ensures |Join(head, SEPARATOR)| > limit
  {
    var all, reach := head + tail, |skipped| + |group|;
    var full := group + [next[0]];
    assert head == all[..|head|];
    assert all[..reach + 1] == skipped + full;
    assert head == head[..reach + 1] + head[reach + 1..];
    assert head[..reach + 1] == all[..reach + 1];
    JoinOfInfix(skipped, full, head[reach + 1..]);
  }

  // Greedy optimality.  The greedy packing of a suffix of the entries never uses more groups
  // than any packing of all of them.
  lemma {:induction false} GreedyIsMinimal(greedy: seq<seq<string>>, other: seq<seq<string>>,
                                           skipped: seq<string>, limit: nat)
    requires forall i | 0 <= i < |greedy| :: greedy[i] != []
    requires IsGreedy(greedy, limit)
    requires IsPacking(other, skipped + Flatten(greedy), limit)
    ensures |greedy| <= |other|
    decreases |greedy|
  {
    if greedy != [] {
      var rest, head, tail := Flatten(greedy[1..]), other[0], Flatten(other[1..]);
      var reach := |skipped| + |greedy[0]|;
      assert skipped + (greedy[0] + rest) == head + tail;
      if |head| > reach {
        assert rest != [];
        assert greedy[1..] != [];
        assert greedy[1..][0] == greedy[1];
        GroupCannotOutreach(skipped, greedy[0], greedy[1], Flatten(greedy[1..][1..]), head, tail, limit);
        assert false;
      } else {
        var left := (skipped + greedy[0])[|head|..];
        var all := head + tail;
        assert all == (skipped + greedy[0]) + rest;
        assert tail == all[|head|..] == left + rest;
        assert forall i | 0 <= i < |greedy[1..]| :: greedy[1..][i] == greedy[i + 1];
        assert forall i | 0 <= i < |other[1..]| :: other[1..][i] == other[i + 1];
        GreedyIsMinimal(greedy[1..], other[1..], left, limit);
      }
    }
  }

  lemma JoinSnoc(current: seq<string>, text: string)
    ensures |Join(current + [text], SEPARATOR)|
         == |Join(current, SEPARATOR)| + (if current == [] then 0 else 2) + |text|
  {
    if current == [] { assert current + [text] == [text]; } else { JoinConcat(current, [text], SEPARATOR); }
  }

  function Closed(groups: seq<seq<string>>, current: seq<string>): seq<seq<string>> {
    if current == [] then groups else groups + [current]
  }

  // What the loop keeps: closed groups plus the open one are a greedy packing of the entries so far.
  ghost predicate Packed(groups: seq<seq<string>>, current: seq<string>, entries: seq<string>, limit: nat) {
    && (current == [] ==> groups == [])
    && IsPacking(Closed(groups, current), entries, limit)
    && IsGreedy(Closed(groups, current), limit)
  }

  // The entry joins the open group.
  lemma ExtendGroup(groups: seq<seq<string>>, current: seq<string>, text: string, entries: seq<string>, limit: nat)
    requires Packed(groups, current, entries, limit)
    requires |Join(current + [text], SEPARATOR)| <= limit
    ensures Packed(groups, current + [text], entries + [text], limit)
  {
    var was, now := Closed(groups, current), groups + [current + [text]];
    FlattenSnoc(groups, current + [text]);
    if current != [] {
      FlattenSnoc(groups, current);
      assert forall i | 0 <= i < |groups| :: was[i] == groups[i] == now[i];
      forall i, j | 0 <= i < j < |now| && j == i + 1 ensures Overflows(now[i], now[j], limit) {
        assert Overflows(was[i], was[j], limit);
      }
    }
  }

  // The open group is full, so the entry starts a new one.
  lemma OpenGroup(groups: seq<seq<string>>, current: seq<string>, text: string, entries: seq<string>, limit: nat)
    requires current != [] && |text| <= limit
    requires Packed(groups, current, entries, limit)
    requires |Join(current + [text], SEPARATOR)| > limit
    ensures Packed(groups + [current], [text], entries + [text], limit)
  {
    var was, now := groups + [current], groups + [current] + [[text]];
    FlattenSnoc(was, [text]);
    forall i, j | 0 <= i < j < |now| && j == i + 1 ensures Overflows(now[i], now[j], limit) {
      if j < |was| { assert Overflows(was[i], was[j], limit); }
    }
  }

  lemma PackingFacts(groups: seq<seq<string>>, entries: seq<string>, limit: nat)
    requires IsPacking(groups, entries, limit) && IsGreedy(groups, limit)
    ensures Join(JoinEach(groups), SEPARATOR) == Join(entries, SEPARATOR)
    ensures forall c <- JoinEach(groups) :: |c| <= limit
    ensures forall other | IsPacking(other, entries, limit) :: |groups| <= |other|
  {
    JoinOfJoins(groups);
    forall other | IsPacking(other, entries, limit) ensures |groups| <= |other| {
      assert [] + Flatten(groups) == Flatten(groups);
      GreedyIsMinimal(groups, other, [], limit);
    }
  }

  // The chunks are the joined groups of a greedy packing of the cleaned entries.
  ghost predicate ChunksOf(chunks: seq<string>, groups: seq<seq<string>>, entries: seq<string>, limit: nat) {
    chunks == JoinEach(groups) && IsPacking(groups, entries, limit) && IsGreedy(groups, limit)
  }

  ghost predicate AreChunks(chunks: seq<string>, entries: seq<string>, limit: nat) {
    exists groups :: ChunksOf(chunks, groups, entries, limit)
  }

  lemma JoinEachSnoc(groups: seq<seq<string>>, last: seq<string>)
    ensures JoinEach(groups + [last]) == JoinEach(groups) + [Join(last, SEPARATOR)]
  {
  }

  // chunk_log_entries.  Nothing is lost or reordered, every chunk is within the limit, and no packing
  // of the same entries into contiguous groups within the limit has fewer groups.
  method ChunkLogEntries(logs: seq<string>, maxChars: int) returns (chunks: seq<string>)
    ensures var entries, limit := CleanEntries(logs, Max(1, maxChars)), Max(1, maxChars);
      && AreChunks(chunks, entries, limit)
      && Join(chunks, SEPARATOR) == Join(entries, SEPARATOR)
      && (forall c <- chunks :: |c| <= limit)
      && forall other | IsPacking(other, entries, limit) :: |chunks| <= |other|
  {
    var limit := Max(1, maxChars);
    ghost var groups: seq<seq<string>>;
    var current: seq<string> := [];
    var currentChars := 0;
    chunks, groups := [], [];
    for i := 0 to |logs|
      invariant chunks == JoinEach(groups)
      invariant currentChars == |Join(current, SEPARATOR)|
      invariant Packed(groups, current, CleanEntries(logs[..i], limit), limit)
    {
      CleanEntriesNext(logs, i, limit);
      var text := Strip(logs[i]);
      if text == "" { continue; }
      if |text| > limit { text := ClipText(text, limit); }
      JoinSnoc(current, text);
      var separatorChars := if current != [] then 2 else 0;
      if current != [] && currentChars + separatorChars + |text| > limit {
        OpenGroup(groups, current, text, CleanEntries(logs[..i], limit), limit);
        JoinEachSnoc(groups, current);
        chunks, groups := chunks + [Join(current, SEPARATOR)], groups + [current];
        current, currentChars := [text], |text|;
      } else {
        ExtendGroup(groups, current, text, CleanEntries(logs[..i], limit), limit);
        current, currentChars := current + [text], currentChars + separatorChars + |text|;
      }
    }
    assert logs[..|logs|] == logs;
    if current != [] {
      JoinEachSnoc(groups, current);
      chunks, groups := chunks + [Join(current, SEPARATOR)], groups + [current];
    }
    assert ChunksOf(chunks, groups, CleanEntries(logs, limit), limit);
    PackingFacts(groups, CleanEntries(logs, limit), limit);
  }

  // ---------------------------------------------------------------- stage payloads

  datatype Payload = Payload(project: string, session: string,
                             active: seq<string>, compress: seq<string>, frozen: seq<string>)

  datatype Zone = ActiveZone | CompressZone

  function QuoteEach(items: seq<string>): (r: seq<string>)
    ensures |r| == |items| && forall i | 0 <= i < |r| :: r[i] == Quote(items[i])
  {
    seq(|items|, i requires 0 <= i < |items| => Quote(items[i]))
  }

  function DumpList(items: seq<string>): string { "[" + Join(QuoteEach(items), ", ") + "]" }

  function DumpHead(project: string, session: string): string {
    "{\"project_name\": " + Quote(project) + ", \"session_id\": " + Quote(session)
    + ", \"three_zone_context\": {\"Active\": "
  }

  function DumpTail(frozen: seq<string>): string { ", \"Frozen\": " + DumpList(frozen) + "}}" }

  function Pieces(p: Payload): seq<string> {
    [DumpHead(p.project, p.session), DumpList(p.active), ", \"Compress\": ", DumpList(p.compress), DumpTail(p.frozen)]
  }

  // The JSON text of a payload, with the default separators of `json.dumps`.
  function Dumps(p: Payload): string { Join(Pieces(p), "") }

  // The text, written out.
  lemma DumpsIsJson(p: Payload)
    ensures Dumps(p)
         == ("{\"project_name\": " + Quote(p.project) + ", \"session_id\": " + Quote(p.session)
             + ", \"three_zone_context\": {\"Active\": ")
            + (("[" + Join(QuoteEach(p.active), ", ") + "]")
               + (", \"Compress\": "
                  + (("[" + Join(QuoteEach(p.compress), ", ") + "]")
                     + (", \"Frozen\": " + ("[" + Join(QuoteEach(p.frozen), ", ") + "]") + "}}"))))
  {
    JoinFive(DumpHead(p.project, p.session), DumpList(p.active), ", \"Compress\": ", DumpList(p.compress),
             DumpTail(p.frozen));
  }

  lemma JoinFive(a: string, b: string, c: string, d: string, e: string)
    ensures Join([a, b, c, d, e], "") == a + (b + (c + (d + e)))
  {
    JoinFirst(a, [b, c, d, e]);
    JoinFirst(b, [c, d, e]);
    JoinFirst(c, [d, e]);
    JoinFirst(d, [e]);
    assert [a, b, c, d, e] == [a] + [b, c, d, e] && [b, c, d, e] == [b] + [c, d, e];
    assert [c, d, e] == [c] + [d, e] && [d, e] == [d] + [e];
  }

  lemma JoinFirst(a: string, rest: seq<string>)
    requires rest != []
    ensures Join([a] + rest, "") == a + Join(rest, "")
  {
    assert ([a] + rest)[1..] == rest && a + "" == a;
  }

  function Items(p: Payload, zone: Zone): seq<string> {
    match zone case ActiveZone => p.active case CompressZone => p.compress
  }

  function WithSlot(p: Payload, zone: Zone, index: nat, text: string): (r: Payload)
    requires index < |Items(p, zone)|
    ensures Items(r, zone) == Items(p, zone)[index := text]
    ensures r.project == p.project && r.session == p.session && r.frozen == p.frozen
  {
    match zone
    case ActiveZone => p.(active := p.active[index := text])
    case CompressZone => p.(compress := p.compress[index := text])
  }

  // Characters of the encoding that do not come from the slot.
  function Overhead(p: Payload, zone: Zone, index: nat): nat
    requires index < |Items(p, zone)|
  {
    |Dumps(WithSlot(p, zone, index, ""))|
  }

  lemma DumpListSlot(items: seq<string>, index: nat, text: string)
    requires index < |items|
    ensures |DumpList(items[index := text])| == |DumpList(items)| - |Escape(items[index])| + |Escape(text)|
  {
    JoinReplaceLength(QuoteEach(items), ", ", index, Quote(text));
    assert QuoteEach(items[index := text]) == QuoteEach(items)[index := Quote(text)];
  }

  lemma SlotPieces(p: Payload, zone: Zone, index: nat, text: string)
    requires index < |Items(p, zone)|
    ensures |Dumps(WithSlot(p, zone, index, text))|
         == |Dumps(p)| - |DumpList(Items(p, zone))| + |DumpList(Items(p, zone)[index := text])|
  {
    var k, list := if zone == ActiveZone then 1 else 3, DumpList(Items(p, zone)[index := text]);
    JoinReplaceLength(Pieces(p), "", k, list);
    assert Pieces(WithSlot(p, zone, index, text)) == Pieces(p)[k := list];
  }

  // The encoding is the overhead plus the escaped slot, whatever the slot holds.
  lemma SlotLength(p: Payload, zone: Zone, index: nat, text: string)
    requires index < |Items(p, zone)|
    ensures |Dumps(WithSlot(p, zone, index, text))| == Overhead(p, zone, index) + |Escape(text)|
  {
    SlotPieces(p, zone, index, text);
    SlotPieces(p, zone, index, "");
    DumpListSlot(Items(p, zone), index, text);
    DumpListSlot(Items(p, zone), index, "");
  }

  lemma SameSlot(p: Payload, zone: Zone, index: nat)
    requires index < |Items(p, zone)|
    ensures WithSlot(p, zone, index, Items(p, zone)[index]) == p
  {
    assert Items(p, zone)[index := Items(p, zone)[index]] == Items(p, zone);
  }

  lemma SlotLengthOf(p: Payload, zone: Zone, index: nat)
    requires index < |Items(p, zone)|
    ensures |Dumps(p)| == Overhead(p, zone, index) + |Escape(Items(p, zone)[index])|
  {
    SlotLength(p, zone, index, Items(p, zone)[index]);
    SameSlot(p, zone, index);
  }

  function FirstChar(text: string): string { text[..Min(1, |text|)] }

  // The slot text after one pass of the fitting loop, when the rest of the encoding takes `overhead`.
  function CutText(text: string, overhead: nat): (r: string)
    ensures r <= text && (text != "" ==> r != "")
  {
    var chars := overhead + |Escape(text)|;
    if chars <= MAX_PAYLOAD_CHARS then text
    else ClipText(text, Max(1, |text| - (chars - MAX_PAYLOAD_CHARS + 256)))
  }

  // One clip decides: it fits exactly when the first character alone would, and a clip that
  // does not fit has cut down to one character.
  lemma CutDecides(text: string, overhead: nat)
    ensures overhead + |Escape(CutText(text, overhead))| <= MAX_PAYLOAD_CHARS
       <==> overhead + |Escape(FirstChar(text))| <= MAX_PAYLOAD_CHARS
    ensures overhead + |Escape(FirstChar(text))| > MAX_PAYLOAD_CHARS ==> |CutText(text, overhead)| <= 1
  {
    var cut, first := CutText(text, overhead), FirstChar(text);
    EscapeGrowth(text, |first|);
    assert cut == text[..|cut|];
    EscapeGrowth(text, |cut|);
    assert cut != "" ==> FirstChar(cut) == first;
    EscapeGrowth(cut, Min(1, |cut|));
  }

  lemma CutIsIdempotent(text: string, overhead: nat)
    ensures CutText(CutText(text, overhead), overhead) == CutText(text, overhead)
  {
    CutDecides(text, overhead);
  }

  predicate Fits(request: Payload) { |Dumps(request)| <= MAX_PAYLOAD_CHARS }

  // The payload after a single clip, if it needs one.
  function ClippedOnce(p: Payload, zone: Zone, index: nat): Payload
    requires index < |Items(p, zone)|
  {
    WithSlot(p, zone, index, CutText(Items(p, zone)[index], Overhead(p, zone, index)))
  }

  // The slot still fits when it is cut down to its first character.
  predicate HasRoom(p: Payload, zone: Zone, index: nat)
    requires index < |Items(p, zone)|
  {
    Overhead(p, zone, index) + |Escape(FirstChar(Items(p, zone)[index]))| <= MAX_PAYLOAD_CHARS
  }

  lemma ClipDecides(p: Payload, zone: Zone, index: nat)
    requires index < |Items(p, zone)|
    ensures Fits(ClippedOnce(p, zone, index)) <==> HasRoom(p, zone, index)
  {
    var text, overhead := Items(p, zone)[index], Overhead(p, zone, index);
    SlotLength(p, zone, index, CutText(text, overhead));
    CutDecides(text, overhead);
  }

  lemma OverheadOfSlot(p: Payload, zone: Zone, index: nat, text: string)
    requires index < |Items(p, zone)|
    ensures Overhead(WithSlot(p, zone, index, text), zone, index) == Overhead(p, zone, index)
  {
    assert WithSlot(WithSlot(p, zone, index, text), zone, index, "") == WithSlot(p, zone, index, "");
  }

  // The clip of the fitting loop: drop the excess and 256 characters more, but keep one.
  function Shortened(p: Payload, zone: Zone, index: nat): Payload
    requires index < |Items(p, zone)|
  {
    var text := Items(p, zone)[index];
    var excess := |Dumps(p)| - MAX_PAYLOAD_CHARS + 256;
    WithSlot(p, zone, index, ClipText(text, Max(1, |text| - excess)))
  }

  function Attempt(p: Payload, zone: Zone, index: nat): Payload
    requires index < |Items(p, zone)|
  {
    if |Dumps(p)| <= MAX_PAYLOAD_CHARS then p else Shortened(p, zone, index)
  }

  lemma AttemptClips(p: Payload, zone: Zone, index: nat)
    requires index < |Items(p, zone)|
    ensures Attempt(p, zone, index) == ClippedOnce(p, zone, index)
  {
    SlotLengthOf(p, zone, index);
    SameSlot(p, zone, index);
    CutIsAttempt(Items(p, zone)[index], Overhead(p, zone, index), |Dumps(p)|);
  }

  lemma CutIsAttempt(text: string, overhead: nat, chars: nat)
    requires chars == overhead + |Escape(text)|
    ensures CutText(text, overhead)
         == if chars <= MAX_PAYLOAD_CHARS then text
            else ClipText(text, Max(1, |text| - (chars - MAX_PAYLOAD_CHARS + 256)))
  {
  }

  // A second turn changes nothing, so six attempts do no more than one.
  lemma AttemptIsIdempotent(p: Payload, zone: Zone, index: nat)
    requires index < |Items(p, zone)|
    ensures |Items(Attempt(p, zone, index), zone)| == |Items(p, zone)|
    ensures Attempt(Attempt(p, zone, index), zone, index) == Attempt(p, zone, index)
  {
    var text, overhead := Items(p, zone)[index], Overhead(p, zone, index);
    var cut := CutText(text, overhead);
    AttemptClips(p, zone, index);
    AttemptClips(WithSlot(p, zone, index, cut), zone, index);
    OverheadOfSlot(p, zone, index, cut);
    CutIsIdempotent(text, overhead);
  }

  // A stage payload under construction; the fitting loop rewrites one slot of it in place.
  class StagePayload {
    var doc: Payload

    constructor (doc: Payload)
      ensures this.doc == doc
    {
      this.doc := doc;
    }

    // fit_stage_payload: an absent slot leaves the payload alone; otherwise the six attempts
    // amount to the one decisive clip.
    method Fit(zone: Zone, index: nat)
      modifies this
      ensures doc == if index < |Items(old(doc), zone)| then ClippedOnce(old(doc), zone, index) else old(doc)
    {
      if index >= |Items(doc, zone)| { return; }
      AttemptClips(doc, zone, index);
      AttemptIsIdempotent(doc, zone, index);
      ghost var fitted := Attempt(doc, zone, index);
      for attempt := 0 to 6
        invariant index < |Items(doc, zone)| && Attempt(doc, zone, index) == fitted
        invariant attempt > 0 ==> doc == fitted
      {
        if |Dumps(doc)| <= MAX_PAYLOAD_CHARS { return; }
        doc := Shortened(doc, zone, index);
      }
    }
  }

  // ---------------------------------------------------------------- intermediate summaries

  function PerSummaryLimit(count: nat, available: int): int
    requires count > 0
  {
    Max(240, Max(available, 1) / count - 80)
  }

  function SummaryPart(summaries: seq<string>, i: nat, limit: int): string
    requires i < |summaries|
  {
    "Intermediate summary " + Dec(i + 1) + "/" + Dec(|summaries|) + ":\n" + ClipText(summaries[i], limit)
  }

  function SummaryParts(summaries: seq<string>, available: int): (r: seq<string>)
    requires summaries != []
    ensures |r| == |summaries|
    ensures forall i | 0 <= i < |r| :: r[i] == SummaryPart(summaries, i, PerSummaryLimit(|summaries|, available))
  {
    var limit := PerSummaryLimit(|summaries|, available);
    seq(|summaries|, i requires 0 <= i < |summaries| => SummaryPart(summaries, i, limit))
  }

  function CombineIntermediateSummaries(summaries: seq<string>, available: int): (r: string)
    ensures |r| <= Max(available, 1)
  {
    if summaries == [] then ""
    else
      var combined := Join(SummaryParts(summaries, available), SEPARATOR);
      if |combined| > available then ClipText(combined, Max(1, available)) else combined
  }

  // The merged summaries are all the parts, with nothing clipped off.
  predicate KeptWhole(summaries: seq<string>, available: int)
    requires summaries != []
  {
    CombineIntermediateSummaries(summaries, available) == Join(SummaryParts(summaries, available), SEPARATOR)
  }

  lemma {:induction false} JoinBound(parts: seq<string>, bound: nat)
    requires forall i | 0 <= i < |parts| :: |parts[i]| <= bound
    ensures |Join(parts, SEPARATOR)| <= |parts| * (bound + 2)
  {
    if |parts| > 1 {
      assert forall i | 0 <= i < |parts| - 1 :: parts[1..][i] == parts[i + 1];
      JoinBound(parts[1..], bound);
      assert |parts| * (bound + 2) == (bound + 2) + (|parts| - 1) * (bound + 2);
    }
  }

  lemma SummaryPartLength(summaries: seq<string>, i: nat, limit: nat)
    requires i < |summaries| < Pow10(27)
    ensures |SummaryPart(summaries, i, limit)| <= limit + 78
  {
    DecLength(i + 1, 27);
    DecLength(|summaries|, 27);
  }

  lemma ShareOf(n: nat, available: int, limit: int)
    requires n > 0 && available >= 320 * n && limit == PerSummaryLimit(n, available)
    ensures limit >= 240 && n * (limit + 80) <= available
  {
    var share := available / n;
    assert n * (share + 1) > n * 320;
    assert n * share <= available;
  }

  // With 320 characters a summary, the final clip never happens: every summary keeps its
  // whole share, in order.
  lemma EverySummaryKept(summaries: seq<string>, available: int)
    requires summaries != [] && |summaries| < Pow10(27)
    requires available >= 320 * |summaries|
    ensures KeptWhole(summaries, available)
  {
    var n := |summaries|;
    var limit := PerSummaryLimit(n, available);
    var parts := SummaryParts(summaries, available);
    ShareOf(n, available, limit);
    PartsWithin(summaries, available, limit);
    JoinBound(parts, limit + 78);
  }

  lemma PartsWithin(summaries: seq<string>, available: int, limit: nat)
    requires summaries != [] && |summaries| < Pow10(27) && limit == PerSummaryLimit(|summaries|, available)
    ensures forall i | 0 <= i < |summaries| :: |SummaryParts(summaries, available)[i]| <= limit + 78
  {
    forall i | 0 <= i < |summaries| ensures |SummaryParts(summaries, available)[i]| <= limit + 78 {
      SummaryPartLength(summaries, i, limit);
    }
  }

  function HeaderLength(i: nat, n: nat): nat { 24 + |Dec(i + 1)| + |Dec(n)| }

  // The headers of the first k of n parts, and what these keep of their summaries.
  function Headers(n: nat, k: nat): nat {
    if k == 0 then 0 else Headers(n, k - 1) + HeaderLength(k - 1, n)
  }

  function KeptChars(summaries: seq<string>, share: nat, k: nat): nat
    requires k <= |summaries|
  {
    if k == 0 then 0 else KeptChars(summaries, share, k - 1) + Min(|summaries[k - 1]|, share)
  }

  // How long the first k parts are once joined.
  function JoinedLength(summaries: seq<string>, share: nat, k: nat): nat
    requires 0 < k <= |summaries|
  {
    Headers(|summaries|, k) + KeptChars(summaries, share, k) + 2 * (k - 1)
  }

  lemma {:induction false} JoinedPrefix(summaries: seq<string>, available: int, k: nat)
    requires 0 < k <= |summaries|
    ensures |Join(SummaryParts(summaries, available)[..k], SEPARATOR)|
         == JoinedLength(summaries, PerSummaryLimit(|summaries|, available), k)
  {
    var parts, share := SummaryParts(summaries, available), PerSummaryLimit(|summaries|, available);
    PartLength(summaries, k - 1, share);
    TakeNext(parts, k - 1);
    JoinSnoc(parts[..k - 1], parts[k - 1]);
    if k > 1 {
      JoinedPrefix(summaries, available, k - 1);
    } else {
      assert parts[..k - 1] == [] && Headers(|summaries|, k - 1) == KeptChars(summaries, share, k - 1) == 0;
    }
  }

  lemma PartLength(summaries: seq<string>, i: nat, share: nat)
    requires i < |summaries|
    ensures |SummaryPart(summaries, i, share)| == HeaderLength(i, |summaries|) + Min(|summaries[i]|, share)
  {
  }

  // Nothing is clipped from the merged summaries exactly when the headers, what each summary keeps
  // within its share, and the separators are within the budget.
  lemma SummariesKeptIff(summaries: seq<string>, available: int)
    requires summaries != []
    ensures KeptWhole(summaries, available)
       <==> JoinedLength(summaries, PerSummaryLimit(|summaries|, available), |summaries|) <= available
  {
    JoinedPrefix(summaries, available, |summaries|);
    var parts := SummaryParts(summaries, available);
    assert parts[..|summaries|] == parts;
    HeadersAtLeast(|summaries|, |summaries|);
  }

  lemma {:induction false} HeadersAtLeast(n: nat, k: nat)
    ensures Headers(n, k) >= 24 * k
  {
    if k > 0 { HeadersAtLeast(n, k - 1); }
  }

  // The same for all summaries of a number: the budget keeps them, however long they are, exactly
  // when it takes n whole shares.
  lemma EveryLengthKeptIff(n: nat, available: int)
    requires n > 0
    ensures (forall summaries: seq<string> | |summaries| == n ::
               KeptWhole(summaries, available))
       <==> Headers(n, n) + n * PerSummaryLimit(n, available) + 2 * (n - 1) <= available
  {
    var share := PerSummaryLimit(n, available);
    if Headers(n, n) + n * share + 2 * (n - 1) <= available {
      forall summaries: seq<string> | |summaries| == n
        ensures KeptWhole(summaries, available)
      {
        WholeSharesKeep(summaries, available);
      }
    } else {
      var longest := LongestAreCut(n, available);
    }
  }

  lemma WholeSharesKeep(summaries: seq<string>, available: int)
    requires summaries != []
    requires var n := |summaries|; Headers(n, n) + n * PerSummaryLimit(n, available) + 2 * (n - 1) <= available
    ensures KeptWhole(summaries, available)
  {
    KeptAtMost(summaries, PerSummaryLimit(|summaries|, available), |summaries|);
    SummariesKeptIff(summaries, available);
  }

  lemma LongestAreCut(n: nat, available: int) returns (longest: seq<string>)
    requires n > 0 && Headers(n, n) + n * PerSummaryLimit(n, available) + 2 * (n - 1) > available
    ensures |longest| == n
    ensures !KeptWhole(longest, available)
  {
    longest := seq(n, _ => Repeated(PerSummaryLimit(n, available)));
    KeptInFull(longest, PerSummaryLimit(n, available), n);
    SummariesKeptIff(longest, available);
  }

  function Repeated(n: nat): (text: string)
    ensures |text| == n
  {
    seq(n, _ => 'a')
  }

  lemma {:induction false} KeptAtMost(summaries: seq<string>, share: nat, k: nat)
    requires k <= |summaries|
    ensures KeptChars(summaries, share, k) <= k * share
  {
    if k > 0 {
      KeptAtMost(summaries, share, k - 1);
      assert k * share == (k - 1) * share + share;
    }
  }

  lemma {:induction false} KeptInFull(summaries: seq<string>, share: nat, k: nat)
    requires k <= |summaries| && forall i | 0 <= i < |summaries| :: |summaries[i]| == share
    ensures KeptChars(summaries, share, k) == k * share
  {
    if k > 0 {
      KeptInFull(summaries, share, k - 1);
      assert k * share == (k - 1) * share + share;
    }
  }

  // The summaries from the k-th on are lost whole, with their headers, exactly when the budget ends no
  // later than the separator before them.
  lemma SummariesVanishIff(summaries: seq<string>, available: int, k: nat)
    requires 0 < k < |summaries| && available > 0
    ensures CombineIntermediateSummaries(summaries, available)
              <= Join(SummaryParts(summaries, available)[..k], SEPARATOR) + SEPARATOR
       <==> available <= JoinedLength(summaries, PerSummaryLimit(|summaries|, available), k) + 2
  {
    var parts := SummaryParts(summaries, available);
    JoinedPrefix(summaries, available, k);
    SplitJoin(parts, k);
    CombinedIsPrefix(summaries, available);
    PrefixWithinIff(Join(parts, SEPARATOR), Join(parts[..k], SEPARATOR) + SEPARATOR, Join(parts[k..], SEPARATOR),
                    available);
  }

  lemma CombinedIsPrefix(summaries: seq<string>, available: int)
    requires summaries != [] && available > 0
    ensures var all := Join(SummaryParts(summaries, available), SEPARATOR);
      CombineIntermediateSummaries(summaries, available) == all[..Min(available, |all|)]
  {
  }

  lemma SplitJoin(parts: seq<string>, k: nat)
    requires 0 < k < |parts| && parts[k] != ""
    ensures Join(parts, SEPARATOR) == (Join(parts[..k], SEPARATOR) + SEPARATOR) + Join(parts[k..], SEPARATOR)
    ensures Join(parts[k..], SEPARATOR) != ""
  {
    assert parts == parts[..k] + parts[k..];
    JoinConcat(parts[..k], parts[k..], SEPARATOR);
    FirstPart(parts[k..]);
  }

  lemma PrefixWithinIff(all: string, kept: string, rest: string, n: nat)
    requires all == kept + rest && rest != ""
    ensures all[..Min(n, |all|)] <= kept <==> n <= |kept|
  {
    if n <= |kept| { assert all[..n] == kept[..n]; }
  }

  lemma FirstPart(parts: seq<string>)
    requires parts != []
    ensures |Join(parts, SEPARATOR)| >= |parts[0]|
  {
  }

  // Three summaries of 240 characters in a budget of 500: nothing of the third remains.
  lemma LastSummaryCanVanish(summaries: seq<string>)
    requires |summaries| == 3 && forall i | 0 <= i < 3 :: |summaries[i]| == 240
    ensures CombineIntermediateSummaries(summaries, 500)
         <= Join(SummaryParts(summaries, 500)[..2], SEPARATOR) + SEPARATOR
  {
    assert Headers(3, 2) == 52 by { assert |Dec(1)| == |Dec(2)| == |Dec(3)| == 1 && Headers(3, 1) == 26; }
    assert KeptChars(summaries, 240, 1) == 240;
    SummariesVanishIff(summaries, 500, 2);
  }

  // ---------------------------------------------------------------- the map-reduce run

  // The two fixed stage instructions of the worker.
  datatype Instructions = Instructions(mapStage: string, reduceStage: string)

  function StageSession(p: Payload, suffix: string): string {
    (if p.session == "" then "fact-crystal-session" else p.session) + "::" + suffix
  }

  function SinglePayload(p: Payload, chunk: string): Payload {
    Payload(p.project, StageSession(p, "bounded-single"), [chunk], [], [])
  }

  function MapPayload(p: Payload, texts: Instructions, chunk: string, index: nat, total: nat): Payload {
    Payload(p.project, StageSession(p, "map-" + Dec3(index) + "-of-" + Dec3(total)),
            [texts.mapStage, "Chunk " + Dec(index) + "/" + Dec(total) + "\n" + chunk], [], [])
  }

  function ReducePayload(p: Payload, texts: Instructions, summary: string, total: nat): Payload {
    Payload(p.project, StageSession(p, "reduce-" + Dec3(total)), [texts.reduceStage], [summary], [])
  }

  function AvailableStageTextChars(p: Payload): int {
    Max(500, MAX_PAYLOAD_CHARS - |Dumps(p)| - 256)
  }

  // Non-blank items of one zone, stripped.
  function ZoneItems(items: seq<string>): seq<string> {
    if items == [] then []
    else ZoneItems(items[..|items| - 1]) + (var t := Strip(items[|items| - 1]); if t == "" then [] else [t])
  }

  function ZoneEntries(zone: string, items: seq<string>): (r: seq<string>)
    ensures |r| == |items|
    ensures forall i | 0 <= i < |r| :: r[i] == zone + " #" + Dec(i + 1) + "\n" + items[i]
  {
    seq(|items|, i requires 0 <= i < |items| => zone + " #" + Dec(i + 1) + "\n" + items[i])
  }

  // synthesis_log_entries: the numbered items of the Active and Compress zones.
  function LogEntries(p: Payload): seq<string> {
    ZoneEntries("Active", ZoneItems(p.active)) + ZoneEntries("Compress", ZoneItems(p.compress))
  }

  // How many of the first k items hold more than whitespace.
  ghost function Visible(items: seq<string>, k: nat): nat
    requires k <= |items|
  {
    if k == 0 then 0 else Visible(items, k - 1) + if Strip(items[k - 1]) != "" then 1 else 0
  }

  // From some entry on, the items of a zone that hold more than whitespace, in order: each under the name of
  // the zone and its running number, stripped, and cut at the limit.
  ghost predicate HoldsZone(entries: seq<string>, first: nat, zone: string, items: seq<string>, limit: nat) {
    forall i | 0 <= i < |items| && Strip(items[i]) != "" ::
      && first + Visible(items, i) < |entries|
      && entries[first + Visible(items, i)]
         == ClipText(zone + " #" + Dec(Visible(items, i) + 1) + "\n" + Strip(items[i]), limit)
  }

  // The entries are those of the Active and then of the Compress zone, and no others.
  ghost predicate HoldsItems(entries: seq<string>, p: Payload, limit: nat) {
    && |entries| == Visible(p.active, |p.active|) + Visible(p.compress, |p.compress|)
    && HoldsZone(entries, 0, "Active", p.active, limit)
    && HoldsZone(entries, Visible(p.active, |p.active|), "Compress", p.compress, limit)
  }

  lemma {:induction false} ZoneItemsAt(items: seq<string>, i: nat)
    requires i < |items|
    ensures |ZoneItems(items)| == Visible(items, |items|)
    ensures Strip(items[i]) != "" ==>
      Visible(items, i) < |ZoneItems(items)| && ZoneItems(items)[Visible(items, i)] == Strip(items[i])
  {
    var init := items[..|items| - 1];
    SameVisible(init, items, |init|);
    if i < |init| {
      SameVisible(init, items, i);
      ZoneItemsAt(init, i);
    } else if init != [] {
      ZoneItemsAt(init, 0);
    }
  }

  lemma {:induction false} SameVisible(init: seq<string>, items: seq<string>, k: nat)
    requires init <= items && k <= |init|
    ensures Visible(init, k) == Visible(items, k)
  {
    if k > 0 { SameVisible(init, items, k - 1); }
  }

  lemma ZoneEntriesHold(zone: string, items: seq<string>, i: nat)
    requires i < |items| && Strip(items[i]) != ""
    ensures Visible(items, i) < |ZoneEntries(zone, ZoneItems(items))|
    ensures ZoneEntries(zone, ZoneItems(items))[Visible(items, i)]
         == zone + " #" + Dec(Visible(items, i) + 1) + "\n" + Strip(items[i])
  {
    ZoneItemsAt(items, i);
  }

  lemma {:induction false} ZoneSize(items: seq<string>)
    ensures |ZoneItems(items)| == Visible(items, |items|)
  {
    if items != [] { ZoneItemsAt(items, 0); }
  }

  // A text that is not blank at either end stays so behind a zone and a number.
  lemma EntryIsStripped(head: string, item: string)
    requires head != "" && !IsSpace(head[0]) && Strip(item) != ""
    ensures Strip(head + "\n" + Strip(item)) == head + "\n" + Strip(item)
  {
    StripLeftShape(item);
    StripRightShape(StripLeft(item));
    StripVisibleEnds(head + "\n" + Strip(item));
  }

  lemma {:induction false} CleanEntriesAt(logs: seq<string>, limit: nat)
    requires forall l <- logs :: Strip(l) == l != ""
    ensures |CleanEntries(logs, limit)| == |logs|
    ensures forall i | 0 <= i < |logs| :: CleanEntries(logs, limit)[i] == ClipText(logs[i], limit)
  {
    if logs != [] {
      var init, last := logs[..|logs| - 1], logs[|logs| - 1];
      assert last in logs;
      CleanEntriesAt(init, limit);
    }
  }

  // What is packed is what the zones hold.
  lemma EntriesHoldItems(p: Payload, limit: nat)
    ensures HoldsItems(CleanEntries(LogEntries(p), limit), p, limit)
  {
    LogEntriesAreClean(p, limit);
    LogEntriesParts(p);
    ZoneSize(p.active);
    ZoneSize(p.compress);
    ActiveHeld(p, limit);
    CompressHeld(p, limit);
  }

  lemma ActiveHeld(p: Payload, limit: nat)
    ensures HoldsZone(CleanEntries(LogEntries(p), limit), 0, "Active", p.active, limit)
  {
    LogEntriesAreClean(p, limit);
    LogEntriesParts(p);
    ZoneHeld("Active", p.active, 0, LogEntries(p), limit);
  }

  lemma CompressHeld(p: Payload, limit: nat)
    ensures HoldsZone(CleanEntries(LogEntries(p), limit), Visible(p.active, |p.active|), "Compress", p.compress, limit)
  {
    LogEntriesAreClean(p, limit);
    LogEntriesParts(p);
    ZoneSize(p.active);
    ZoneHeld("Compress", p.compress, |ZoneItems(p.active)|, LogEntries(p), limit);
  }

  lemma LogEntriesAreClean(p: Payload, limit: nat)
    ensures var logs := LogEntries(p);
      |CleanEntries(logs, limit)| == |logs|
      && forall i | 0 <= i < |logs| :: CleanEntries(logs, limit)[i] == ClipText(logs[i], limit)
  {
    forall l | l in LogEntries(p) ensures Strip(l) == l != "" { LogEntryIsStripped(p, l); }
    CleanEntriesAt(LogEntries(p), limit);
  }

  lemma LogEntriesParts(p: Payload)
    ensures var a, c, logs := ZoneItems(p.active), ZoneItems(p.compress), LogEntries(p);
      |logs| == |a| + |c| && LogsOf(logs, 0, "Active", a) && LogsOf(logs, |a|, "Compress", c)
  {
  }

  ghost predicate LogsOf(logs: seq<string>, first: nat, zone: string, items: seq<string>) {
    forall i | 0 <= i < |items| :: first + i < |logs| && logs[first + i] == ZoneEntries(zone, items)[i]
  }

  lemma ZoneHeld(zone: string, items: seq<string>, first: nat, logs: seq<string>, limit: nat)
    requires first + |ZoneItems(items)| <= |logs| == |CleanEntries(logs, limit)|
    requires LogsOf(logs, first, zone, ZoneItems(items))
    requires forall i | 0 <= i < |logs| :: CleanEntries(logs, limit)[i] == ClipText(logs[i], limit)
    ensures HoldsZone(CleanEntries(logs, limit), first, zone, items, limit)
  {
    forall i | 0 <= i < |items| && Strip(items[i]) != ""
      ensures first + Visible(items, i) < |logs|
        && logs[first + Visible(items, i)] == zone + " #" + Dec(Visible(items, i) + 1) + "\n" + Strip(items[i])
    {
      ZoneEntriesHold(zone, items, i);
      assert logs[first + Visible(items, i)] == ZoneEntries(zone, ZoneItems(items))[Visible(items, i)];
    }
  }

  lemma LogEntryIsStripped(p: Payload, l: string)
    requires l in LogEntries(p)
    ensures Strip(l) == l != ""
  {
    var a, c := ZoneItems(p.active), ZoneItems(p.compress);
    ZoneItemsAreStripped(p.active);
    ZoneItemsAreStripped(p.compress);
    if i :| 0 <= i < |a| && l == ZoneEntries("Active", a)[i] {
      assert a[i] in a;
      EntryIsStripped("Active" + " #" + Dec(i + 1), a[i]);
    } else {
      var i :| 0 <= i < |c| && l == ZoneEntries("Compress", c)[i];
      assert c[i] in c;
      EntryIsStripped("Compress" + " #" + Dec(i + 1), c[i]);
    }
  }

  lemma {:induction false} ZoneItemsAreStripped(items: seq<string>)
    ensures forall item <- ZoneItems(items) :: Strip(item) == item != ""
  {
    if items != [] {
      ZoneItemsAreStripped(items[..|items| - 1]);
      StripIsIdempotent(items[|items| - 1]);
    }
  }

  lemma NothingVisible(items: seq<string>, k: nat)
    requires k <= |items|
    ensures Visible(items, k) == 0 <==> forall i | 0 <= i < k :: Strip(items[i]) == ""
  {
    if k > 0 { NothingVisible(items, k - 1); }
  }

  function ChunkLimit(p: Payload, texts: Instructions): nat {
    AvailableStageTextChars(MapPayload(p, texts, "", 1, 1))
  }

  // The text costs one character of encoding to start: it opens with a plain capital letter.
  predicate OpensPlainly(text: string) { text != "" && 'A' <= text[0] <= 'Z' }

  lemma PlainOpening(text: string)
    requires OpensPlainly(text)
    ensures |Escape(FirstChar(text))| == 1
  {
    assert FirstChar(text) == [text[0]];
    assert [text[0]][..0] == "";
    assert Escape([text[0]]) == Escape("") + EscapeChar(text[0]);
  }

  lemma {:induction false} StripKeepsOpening(text: string)
    requires OpensPlainly(text)
    ensures OpensPlainly(StripRight(text))
  {
    if IsSpace(text[|text| - 1]) {
      assert |text| > 1;
      StripKeepsOpening(text[..|text| - 1]);
    }
  }

  lemma {:induction false} CleanEntriesOpenPlainly(logs: seq<string>, limit: nat)
    requires limit > 0 && forall l <- logs :: OpensPlainly(l)
    ensures forall e <- CleanEntries(logs, limit) :: OpensPlainly(e)
  {
    if logs != [] {
      var last := logs[|logs| - 1];
      assert last in logs;
      CleanEntriesOpenPlainly(logs[..|logs| - 1], limit);
      StripKeepsOpening(last);
      assert StripLeft(last) == last;
    }
  }

  lemma ChunksOpenPlainly(p: Payload, limit: nat, chunks: seq<string>)
    requires limit > 0 && AreChunks(chunks, CleanEntries(LogEntries(p), limit), limit)
    ensures forall i | 0 <= i < |chunks| :: OpensPlainly(chunks[i])
  {
    var groups :| ChunksOf(chunks, groups, CleanEntries(LogEntries(p), limit), limit);
    CleanEntriesOpenPlainly(LogEntries(p), limit);
    forall i | 0 <= i < |chunks| ensures OpensPlainly(chunks[i]) {
      FlattenMember(groups, i);
      assert groups[i][0] in CleanEntries(LogEntries(p), limit);
    }
  }

  lemma {:induction false} FlattenMember(groups: seq<seq<string>>, i: nat)
    requires i < |groups|
    ensures forall e <- groups[i] :: e in Flatten(groups)
  {
    if i > 0 {
      FlattenMember(groups[1..], i - 1);
    }
  }

  lemma CombinedOpensPlainly(summaries: seq<string>, available: int)
    requires summaries != [] && available >= 1
    ensures OpensPlainly(CombineIntermediateSummaries(summaries, available))
  {
    var parts := SummaryParts(summaries, available);
    assert parts[0][0] == 'I';
    var combined := Join(parts, SEPARATOR);
    assert combined[0] == parts[0][0];
    assert CombineIntermediateSummaries(summaries, available) <= combined;
  }

  function RequestCount(total: nat): nat { if total <= 1 then total else total + 1 }

  // The fixed part of the k-th request of a run over `total` chunks.
  function StageOverhead(p: Payload, texts: Instructions, total: nat, k: nat): nat {
    if total <= 1 then Overhead(SinglePayload(p, ""), ActiveZone, 0)
    else if k < total then Overhead(MapPayload(p, texts, "", k + 1, total), ActiveZone, 1)
    else Overhead(ReducePayload(p, texts, "", total), CompressZone, 0)
  }

  // What a caller can check before the run: the fixed part of every stage payload, for this
  // number of chunks, leaves room for one character of stage text.
  predicate StageHasRoom(p: Payload, texts: Instructions, total: nat, k: nat) {
    StageOverhead(p, texts, total, k) < MAX_PAYLOAD_CHARS
  }

  predicate StagesHaveRoom(p: Payload, texts: Instructions, total: nat) {
    forall k: nat | k < RequestCount(total) :: StageHasRoom(p, texts, total, k)
  }

  lemma SingleRoom(p: Payload, chunk: string)
    requires OpensPlainly(chunk)
    ensures Fits(ClippedOnce(SinglePayload(p, chunk), ActiveZone, 0))
       <==> Overhead(SinglePayload(p, ""), ActiveZone, 0) < MAX_PAYLOAD_CHARS
  {
    ClipDecides(SinglePayload(p, chunk), ActiveZone, 0);
    PlainOpening(chunk);
    assert SinglePayload(p, chunk) == WithSlot(SinglePayload(p, ""), ActiveZone, 0, chunk);
    OverheadOfSlot(SinglePayload(p, ""), ActiveZone, 0, chunk);
  }

  lemma MapRoom(p: Payload, texts: Instructions, chunk: string, index: nat, total: nat)
    ensures Fits(ClippedOnce(MapPayload(p, texts, chunk, index, total), ActiveZone, 1))
       <==> Overhead(MapPayload(p, texts, "", index, total), ActiveZone, 1) < MAX_PAYLOAD_CHARS
  {
    var empty, full := MapPayload(p, texts, "", index, total), MapPayload(p, texts, chunk, index, total);
    ClipDecides(full, ActiveZone, 1);
    PlainOpening(full.active[1]);
    assert full == WithSlot(empty, ActiveZone, 1, full.active[1]);
    OverheadOfSlot(empty, ActiveZone, 1, full.active[1]);
  }

  lemma ReduceRoom(p: Payload, texts: Instructions, summary: string, total: nat)
    requires OpensPlainly(summary)
    ensures Fits(ClippedOnce(ReducePayload(p, texts, summary, total), CompressZone, 0))
       <==> Overhead(ReducePayload(p, texts, "", total), CompressZone, 0) < MAX_PAYLOAD_CHARS
  {
    ClipDecides(ReducePayload(p, texts, summary, total), CompressZone, 0);
    PlainOpening(summary);
    assert ReducePayload(p, texts, summary, total)
        == WithSlot(ReducePayload(p, texts, "", total), CompressZone, 0, summary);
    OverheadOfSlot(ReducePayload(p, texts, "", total), CompressZone, 0, summary);
  }

  // The model's answer to one request: text, or a transport or parse failure.
  datatype Reply = Answer(text: string) | Failed

  datatype Outcome = Crystal(text: string) | NoEntries | GateExceeded | CallFailed

  function StageText(reply: Reply): string { if reply.Answer? then reply.text else "" }

  // The request for one chunk.
  function ChunkRequest(p: Payload, texts: Instructions, chunks: seq<string>, k: nat): Payload
    requires k < |chunks|
  {
    if |chunks| == 1 then ClippedOnce(SinglePayload(p, chunks[k]), ActiveZone, 0)
    else ClippedOnce(MapPayload(p, texts, chunks[k], k + 1, |chunks|), ActiveZone, 1)
  }

  function Summary(p: Payload, texts: Instructions, chunks: seq<string>, llm: (nat, Payload) -> Reply, k: nat): string
    requires k < |chunks|
  {
    StageText(llm(k, ChunkRequest(p, texts, chunks, k)))
  }

  function Summaries(p: Payload, texts: Instructions, chunks: seq<string>,
                     llm: (nat, Payload) -> Reply): (r: seq<string>)
    ensures |r| == |chunks|
    ensures forall k | 0 <= k < |r| :: r[k] == Summary(p, texts, chunks, llm, k)
  {
    seq(|chunks|, k requires 0 <= k < |chunks| => Summary(p, texts, chunks, llm, k))
  }

  function Combined(p: Payload, texts: Instructions, chunks: seq<string>, llm: (nat, Payload) -> Reply): string {
    CombineIntermediateSummaries(Summaries(p, texts, chunks, llm),
                                 AvailableStageTextChars(ReducePayload(p, texts, "", |chunks|)))
  }

  function ReduceRequest(p: Payload, texts: Instructions, chunks: seq<string>, llm: (nat, Payload) -> Reply): Payload {
    ClippedOnce(ReducePayload(p, texts, Combined(p, texts, chunks, llm), |chunks|), CompressZone, 0)
  }

  function MapRequests(p: Payload, texts: Instructions, chunks: seq<string>): (r: seq<Payload>)
    ensures |r| == |chunks| && forall k | 0 <= k < |r| :: r[k] == ChunkRequest(p, texts, chunks, k)
  {
    seq(|chunks|, k requires 0 <= k < |chunks| => ChunkRequest(p, texts, chunks, k))
  }

  // The requests of a run that nothing stops: one for each chunk in order, then the reduce stage.
  function Plan(p: Payload, texts: Instructions, chunks: seq<string>, llm: (nat, Payload) -> Reply): (r: seq<Payload>)
    ensures |r| == RequestCount(|chunks|)
    ensures forall k | 0 <= k < |chunks| :: r[k] == ChunkRequest(p, texts, chunks, k)
    ensures |chunks| > 1 ==> r[|chunks|] == ReduceRequest(p, texts, chunks, llm)
  {
    MapRequests(p, texts, chunks) + (if |chunks| > 1 then [ReduceRequest(p, texts, chunks, llm)] else [])
  }

  lemma ChunkGate(p: Payload, texts: Instructions, chunks: seq<string>, k: nat)
    requires k < |chunks| && OpensPlainly(chunks[k])
    ensures Fits(ChunkRequest(p, texts, chunks, k)) <==> StageHasRoom(p, texts, |chunks|, k)
  {
    if |chunks| == 1 {
      SingleRoom(p, chunks[k]);
    } else {
      MapRoom(p, texts, chunks[k], k + 1, |chunks|);
    }
  }

  lemma ReduceGate(p: Payload, texts: Instructions, chunks: seq<string>, llm: (nat, Payload) -> Reply)
    requires |chunks| > 1
    ensures Fits(ReduceRequest(p, texts, chunks, llm)) <==> StageHasRoom(p, texts, |chunks|, |chunks|)
  {
    var available := AvailableStageTextChars(ReducePayload(p, texts, "", |chunks|));
    CombinedOpensPlainly(Summaries(p, texts, chunks, llm), available);
    ReduceRoom(p, texts, Combined(p, texts, chunks, llm), |chunks|);
  }

  // call_synthesis_endpoint: an oversized payload is refused before it is sent.
  method CallEndpoint(request: Payload, number: nat, llm: (nat, Payload) -> Reply) returns (refused: bool, reply: Reply)
    ensures refused <==> !Fits(request)
    ensures !refused ==> reply == llm(number, request)
  {
    refused := |Dumps(request)| > MAX_PAYLOAD_CHARS;
    reply := if refused then Failed else llm(number, request);
  }

  // Fit one stage payload and put it through the endpoint.
  method SendStage(stage: Payload, zone: Zone, index: nat, number: nat, llm: (nat, Payload) -> Reply)
    returns (request: Payload, refused: bool, reply: Reply)
    requires index < |Items(stage, zone)|
    ensures request == ClippedOnce(stage, zone, index)
    ensures refused <==> !Fits(request)
    ensures !refused ==> reply == llm(number, request)
  {
    var building := new StagePayload(stage);
    building.Fit(zone, index);
    request := building.doc;
    refused, reply := CallEndpoint(request, number, llm);
  }

  // How a run with this plan ended.  What was sent is the first part of the plan, and every
  // request sent had passed the gate.
  ghost predicate EndedWith<R>(plan: seq<R>, fits: R -> bool, llm: (nat, R) -> Reply, outcome: Outcome, sent: seq<R>) {
    && sent <= plan
    && (forall k | 0 <= k < |sent| :: fits(sent[k]))
    && match outcome
       case NoEntries => plan == []
       case GateExceeded => |sent| < |plan| && !fits(plan[|sent|])
       case CallFailed => sent != [] && llm(|sent| - 1, sent[|sent| - 1]).Failed?
       case Crystal(text) => sent != [] && sent == plan && llm(|sent| - 1, sent[|sent| - 1]) == Answer(text)
  }

  ghost predicate Passed<R>(plan: seq<R>, fits: R -> bool, sent: seq<R>, k: nat) {
    k <= |plan| && sent == plan[..k] && forall i | 0 <= i < k :: fits(plan[i])
  }

  lemma PassedNext<R>(plan: seq<R>, fits: R -> bool, sent: seq<R>, k: nat)
    requires Passed(plan, fits, sent, k) && k < |plan|
    ensures fits(plan[k]) ==> Passed(plan, fits, sent + [plan[k]], k + 1)
  {
  }

  lemma EndsRefused<R>(plan: seq<R>, fits: R -> bool, llm: (nat, R) -> Reply, sent: seq<R>, k: nat)
    requires Passed(plan, fits, sent, k) && k < |plan| && !fits(plan[k])
    ensures EndedWith(plan, fits, llm, GateExceeded, sent)
  {
  }

  lemma EndsFailed<R>(plan: seq<R>, fits: R -> bool, llm: (nat, R) -> Reply, sent: seq<R>, k: nat)
    requires Passed(plan, fits, sent, k) && k > 0 && llm(k - 1, plan[k - 1]).Failed?
    ensures EndedWith(plan, fits, llm, CallFailed, sent)
  {
  }

  lemma EndsAnswered<R>(plan: seq<R>, fits: R -> bool, llm: (nat, R) -> Reply, sent: seq<R>)
    requires plan != [] && Passed(plan, fits, sent, |plan|) && llm(|plan| - 1, plan[|plan| - 1]).Answer?
    ensures EndedWith(plan, fits, llm, Crystal(llm(|plan| - 1, plan[|plan| - 1]).text), sent)
  {
  }

  lemma GateIsExact<R(!new)>(plan: seq<R>, fits: R -> bool, llm: (nat, R) -> Reply, outcome: Outcome, sent: seq<R>)
    requires plan != [] && EndedWith(plan, fits, llm, outcome, sent)
    ensures (forall k: nat | k < |plan| :: fits(plan[k])) ==> !outcome.GateExceeded?
    ensures (forall k: nat, request: R :: llm(k, request).Answer?) ==>
              !(forall k: nat | k < |plan| :: fits(plan[k])) ==> outcome.GateExceeded?
  {
  }

  lemma GateAt(p: Payload, texts: Instructions, chunks: seq<string>, llm: (nat, Payload) -> Reply, k: nat)
    requires (forall i | 0 <= i < |chunks| :: OpensPlainly(chunks[i])) && k < |Plan(p, texts, chunks, llm)|
    ensures Fits(Plan(p, texts, chunks, llm)[k]) <==> StageHasRoom(p, texts, |chunks|, k)
  {
    if k < |chunks| { ChunkGate(p, texts, chunks, k); } else { ReduceGate(p, texts, chunks, llm); }
  }

  // Every request of a run passes the size gate exactly when the fixed part of each stage
  // payload leaves room for one character.
  lemma GateOpens(p: Payload, texts: Instructions, chunks: seq<string>, llm: (nat, Payload) -> Reply)
    requires forall i | 0 <= i < |chunks| :: OpensPlainly(chunks[i])
    ensures var plan := Plan(p, texts, chunks, llm);
      StagesHaveRoom(p, texts, |chunks|) <==> forall k: nat | k < |plan| :: Fits(plan[k])
  {
    var plan := Plan(p, texts, chunks, llm);
    if StagesHaveRoom(p, texts, |chunks|) {
      forall k: nat | k < |plan| ensures Fits(plan[k]) { GateAt(p, texts, chunks, llm, k); }
    } else {
      var k: nat :| k < RequestCount(|chunks|) && !StageHasRoom(p, texts, |chunks|, k);
      GateAt(p, texts, chunks, llm, k);
      assert !Fits(plan[k]);
    }
  }

  // The planned requests and the summaries they bring back, for the map stages.
  ghost predicate StagePlan(p: Payload, texts: Instructions, chunks: seq<string>, llm: (nat, Payload) -> Reply,
                            plan: seq<Payload>, wanted: seq<string>)
  {
    && |chunks| <= |plan| && |chunks| == |wanted| > 1
    && forall k: nat | k < |chunks| ::
         plan[k] == ChunkRequest(p, texts, chunks, k) && wanted[k] == StageText(llm(k, plan[k]))
  }

  // The map stages, in order; when one is refused or fails, `stop` is that outcome.
  method RunMapStages(p: Payload, texts: Instructions, chunks: seq<string>, llm: (nat, Payload) -> Reply,
                      ghost plan: seq<Payload>, ghost wanted: seq<string>)
    returns (sent: seq<Payload>, summaries: seq<string>, stop: Outcome)
    requires StagePlan(p, texts, chunks, llm, plan, wanted)
    ensures stop.GateExceeded? || stop.CallFailed? ==> EndedWith(plan, Fits, llm, stop, sent)
    ensures stop.NoEntries? ==> Passed(plan, Fits, sent, |chunks|) && summaries == wanted
    ensures !stop.Crystal?
  {
    sent, summaries, stop := [], [], NoEntries;
    for k := 0 to |chunks|
      invariant Passed(plan, Fits, sent, k)
      invariant summaries == wanted[..k]
    {
      var request, refused, reply := SendStage(MapPayload(p, texts, chunks[k], k + 1, |chunks|), ActiveZone, 1, k, llm);
      assert request == plan[k];
      if refused {
        EndsRefused(plan, Fits, llm, sent, k);
        return sent, summaries, GateExceeded;
      }
      PassedNext(plan, Fits, sent, k);
      sent := sent + [request];
      if reply.Failed? {
        EndsFailed(plan, Fits, llm, sent, k + 1);
        return sent, summaries, CallFailed;
      }
      TakeNext(wanted, k);
      summaries := summaries + [reply.text];
    }
    assert wanted[..|chunks|] == wanted;
  }

  // The last request of the run: the only one for a single chunk, the reduce stage otherwise.
  method SendLast(request: Payload, refused: bool, reply: Reply, llm: (nat, Payload) -> Reply,
                  before: seq<Payload>, ghost plan: seq<Payload>)
    returns (outcome: Outcome, sent: seq<Payload>)
    requires Passed(plan, Fits, before, |before|) && |before| + 1 == |plan|
    requires request == plan[|before|] && (refused <==> !Fits(request))
    requires !refused ==> reply == llm(|before|, request)
    ensures EndedWith(plan, Fits, llm, outcome, sent)
  {
    if refused {
      EndsRefused(plan, Fits, llm, before, |before|);
      return GateExceeded, before;
    }
    PassedNext(plan, Fits, before, |before|);
    sent := before + [request];
    if reply.Failed? {
      EndsFailed(plan, Fits, llm, sent, |sent|);
      return CallFailed, sent;
    }
    EndsAnswered(plan, Fits, llm, sent);
    return Crystal(reply.text), sent;
  }

  lemma PlanIsStagePlan(p: Payload, texts: Instructions, chunks: seq<string>, llm: (nat, Payload) -> Reply)
    requires |chunks| > 1
    ensures StagePlan(p, texts, chunks, llm, Plan(p, texts, chunks, llm), Summaries(p, texts, chunks, llm))
  {
  }

  // ---------------------------------------------------------------- what the requests say

  // The slot holds the text, or the front of it where not all of it fits.
  ghost predicate IsCutOf(slot: string, text: string) { slot <= text && (text != "" ==> slot != "") }

  // The request for a chunk: the only one alone, one of several behind the instruction, under its number.
  ghost predicate Asks(request: Payload, p: Payload, texts: Instructions, chunks: seq<string>, k: nat)
    requires k < |chunks|
  {
    var session, n := if p.session == "" then "fact-crystal-session" else p.session, |chunks|;
    && request.project == p.project && request.compress == [] && request.frozen == []
    && if n == 1 then
         && request.session == session + "::bounded-single"
         && |request.active| == 1 && IsCutOf(request.active[0], chunks[0])
       else
         && request.session == session + "::map-" + Dec3(k + 1) + "-of-" + Dec3(n)
         && |request.active| == 2 && request.active[0] == texts.mapStage
         && IsCutOf(request.active[1], "Chunk " + Dec(k + 1) + "/" + Dec(n) + "\n" + chunks[k])
  }

  // The answers to the requests that were sent for the chunks.
  ghost predicate AnswersTo(answers: seq<string>, sent: seq<Payload>, llm: (nat, Payload) -> Reply) {
    && |answers| == |sent|
    && forall k | 0 <= k < |sent| ::
         match llm(k, sent[k]) case Answer(text) => answers[k] == text case Failed => answers[k] == ""
  }

  // The last request: all the answers, numbered, each within its share, together within what is available.
  ghost predicate AsksToMerge(request: Payload, p: Payload, texts: Instructions, answers: seq<string>) {
    var session, n := if p.session == "" then "fact-crystal-session" else p.session, |answers|;
    && n > 0
    && request.project == p.project && request.session == session + "::reduce-" + Dec3(n)
    && request.active == [texts.reduceStage] && request.frozen == [] && |request.compress| == 1
    && exists merged ::
         Merges(merged, answers, 20000 - |Dumps(ReducePayload(p, texts, "", n))| - 256)
         && IsCutOf(request.compress[0], merged)
  }

  ghost predicate Merges(merged: string, answers: seq<string>, left: int)
    requires answers != []
  {
    var available := if left < 500 then 500 else left;
    exists parts :: ArePartsOf(parts, answers, available) && merged == ClipText(Join(parts, "\n\n"), available)
  }

  ghost predicate ArePartsOf(parts: seq<string>, answers: seq<string>, available: nat)
    requires answers != []
  {
    var n := |answers|;
    var share := if available / n - 80 < 240 then 240 else available / n - 80;
    && |parts| == n
    && forall i | 0 <= i < n ::
         parts[i] == "Intermediate summary " + Dec(i + 1) + "/" + Dec(n) + ":\n" + ClipText(answers[i], share)
  }

  lemma ChunkRequestAsks(p: Payload, texts: Instructions, chunks: seq<string>, k: nat)
    requires k < |chunks|
    ensures Asks(ChunkRequest(p, texts, chunks, k), p, texts, chunks, k)
  {
    if |chunks| == 1 { SessionOfSingle(p); } else { SessionOfMap(p, k + 1, |chunks|); }
  }

  lemma SessionOfSingle(p: Payload)
    ensures StageSession(p, "bounded-single")
         == (if p.session == "" then "fact-crystal-session" else p.session) + "::bounded-single"
  {
    SessionOf(p, "bounded-single");
  }

  lemma SessionOfMap(p: Payload, index: nat, total: nat)
    ensures StageSession(p, "map-" + Dec3(index) + "-of-" + Dec3(total))
         == (if p.session == "" then "fact-crystal-session" else p.session)
            + "::map-" + Dec3(index) + "-of-" + Dec3(total)
  {
    SessionOf(p, "map-" + Dec3(index) + "-of-" + Dec3(total));
    MapSessionParts(if p.session == "" then "fact-crystal-session" else p.session, Dec3(index), Dec3(total));
  }

  lemma SessionOf(p: Payload, suffix: string)
    ensures StageSession(p, suffix) == (if p.session == "" then "fact-crystal-session" else p.session) + "::" + suffix
  {
  }

  lemma MapSessionParts(session: string, index: string, total: string)
    ensures session + "::" + ("map-" + index + "-of-" + total) == session + "::map-" + index + "-of-" + total
  {
  }

  lemma ReduceRequestAsks(p: Payload, texts: Instructions, chunks: seq<string>, llm: (nat, Payload) -> Reply)
    requires chunks != []
    ensures AsksToMerge(ReduceRequest(p, texts, chunks, llm), p, texts, Summaries(p, texts, chunks, llm))
  {
    var summaries, n := Summaries(p, texts, chunks, llm), |chunks|;
    CombinedMerges(summaries, 20000 - |Dumps(ReducePayload(p, texts, "", n))| - 256);
    MergedAsks(p, texts, Combined(p, texts, chunks, llm), summaries);
  }

  lemma MergedAsks(p: Payload, texts: Instructions, merged: string, answers: seq<string>)
    requires answers != []
    requires Merges(merged, answers, 20000 - |Dumps(ReducePayload(p, texts, "", |answers|))| - 256)
    ensures AsksToMerge(ClippedOnce(ReducePayload(p, texts, merged, |answers|), CompressZone, 0), p, texts, answers)
  {
    SessionOf(p, "reduce-" + Dec3(|answers|));
    JoinSession(if p.session == "" then "fact-crystal-session" else p.session, Dec3(|answers|));
    var request := ClippedOnce(ReducePayload(p, texts, merged, |answers|), CompressZone, 0);
    assert IsCutOf(request.compress[0], merged);
  }

  lemma JoinSession(session: string, total: string)
    ensures session + "::" + ("reduce-" + total) == session + "::reduce-" + total
  {
  }

  lemma CombinedMerges(summaries: seq<string>, left: int)
    requires summaries != []
    ensures Merges(CombineIntermediateSummaries(summaries, Max(500, left)), summaries, left)
  {
    assert ArePartsOf(SummaryParts(summaries, Max(500, left)), summaries, Max(500, left));
  }

  lemma SummariesAnswer(p: Payload, texts: Instructions, chunks: seq<string>, llm: (nat, Payload) -> Reply,
                        sent: seq<Payload>)
    requires |sent| == |chunks| && forall k | 0 <= k < |sent| :: sent[k] == ChunkRequest(p, texts, chunks, k)
    ensures AnswersTo(Summaries(p, texts, chunks, llm), sent, llm)
  {
  }

  lemma SentAsk(p: Payload, texts: Instructions, chunks: seq<string>, llm: (nat, Payload) -> Reply,
                sent: seq<Payload>)
    requires chunks != [] && sent <= Plan(p, texts, chunks, llm)
    ensures forall k | 0 <= k < |sent| && k < |chunks| :: Asks(sent[k], p, texts, chunks, k)
    ensures |sent| > |chunks| ==>
      |sent| == |chunks| + 1 && exists answers ::
        AnswersTo(answers, sent[..|chunks|], llm) && AsksToMerge(sent[|chunks|], p, texts, answers)
  {
    forall k | 0 <= k < |sent| && k < |chunks| ensures Asks(sent[k], p, texts, chunks, k) {
      ChunkRequestAsks(p, texts, chunks, k);
    }
    if |sent| > |chunks| { LastAsks(p, texts, chunks, llm, sent); }
  }

  lemma LastAsks(p: Payload, texts: Instructions, chunks: seq<string>, llm: (nat, Payload) -> Reply,
                 sent: seq<Payload>)
    requires chunks != [] && sent <= Plan(p, texts, chunks, llm) && |sent| > |chunks|
    ensures |sent| == |chunks| + 1
    ensures AnswersTo(Summaries(p, texts, chunks, llm), sent[..|chunks|], llm)
    ensures AsksToMerge(sent[|chunks|], p, texts, Summaries(p, texts, chunks, llm))
  {
    ReduceRequestAsks(p, texts, chunks, llm);
    SummariesAnswer(p, texts, chunks, llm, sent[..|chunks|]);
  }

  // Nothing is left to pack exactly when both zones are blank.
  lemma NoChunksIff(p: Payload, limit: nat, chunks: seq<string>)
    requires AreChunks(chunks, CleanEntries(LogEntries(p), limit), limit)
    ensures chunks == [] <==> forall item <- p.active + p.compress :: Strip(item) == ""
  {
    var entries := CleanEntries(LogEntries(p), limit);
    EntriesHoldItems(p, limit);
    AllBlank(p.active);
    AllBlank(p.compress);
    NoGroups(chunks, entries, limit);
  }

  lemma AllBlank(items: seq<string>)
    ensures Visible(items, |items|) == 0 <==> forall item <- items :: Strip(item) == ""
  {
    NothingVisible(items, |items|);
  }

  lemma NoGroups(chunks: seq<string>, entries: seq<string>, limit: nat)
    requires AreChunks(chunks, entries, limit)
    ensures chunks == [] <==> entries == []
  {
    var groups :| ChunksOf(chunks, groups, entries, limit);
    if groups != [] { assert groups[0] != []; }
  }

  // synthesize_with_map_reduce.
  method SynthesizeWithMapReduce(p: Payload, texts: Instructions, llm: (nat, Payload) -> Reply)
    returns (outcome: Outcome, sent: seq<Payload>, chunks: seq<string>)
    ensures AreChunks(chunks, CleanEntries(LogEntries(p), ChunkLimit(p, texts)), ChunkLimit(p, texts))
    ensures exists entries ::
      HoldsItems(entries, p, ChunkLimit(p, texts)) && AreChunks(chunks, entries, ChunkLimit(p, texts))
    ensures outcome == NoEntries <==> forall item <- p.active + p.compress :: Strip(item) == ""
    ensures EndedWith(Plan(p, texts, chunks, llm), Fits, llm, outcome, sent)
    ensures forall k | 0 <= k < |sent| :: |Dumps(sent[k])| <= 20000
    ensures forall k | 0 <= k < |sent| && k < |chunks| :: Asks(sent[k], p, texts, chunks, k)
    ensures |sent| > |chunks| ==>
      |sent| == |chunks| + 1 && exists answers ::
        AnswersTo(answers, sent[..|chunks|], llm) && AsksToMerge(sent[|chunks|], p, texts, answers)
    ensures StagesHaveRoom(p, texts, |chunks|) ==> !outcome.GateExceeded?
    ensures chunks != [] && !StagesHaveRoom(p, texts, |chunks|) && (forall k, request :: llm(k, request).Answer?) ==>
      outcome.GateExceeded?
  {
    sent := [];
    chunks := ChunkLogEntries(LogEntries(p), ChunkLimit(p, texts));
    EntriesHoldItems(p, ChunkLimit(p, texts));
    NoChunksIff(p, ChunkLimit(p, texts), chunks);
    if chunks == [] { return NoEntries, sent, chunks; }
    outcome, sent := RunChunks(p, texts, chunks, llm);
    RefusedExactlyWithoutRoom(p, texts, llm, outcome, sent, chunks);
    SentAsk(p, texts, chunks, llm, sent);
  }

  method RunChunks(p: Payload, texts: Instructions, chunks: seq<string>, llm: (nat, Payload) -> Reply)
    returns (outcome: Outcome, sent: seq<Payload>)
    requires chunks != []
    ensures EndedWith(Plan(p, texts, chunks, llm), Fits, llm, outcome, sent)
  {
    ghost var plan := Plan(p, texts, chunks, llm);
    var request, refused, reply;
    sent := [];
    if |chunks| == 1 {
      request, refused, reply := SendStage(SinglePayload(p, chunks[0]), ActiveZone, 0, 0, llm);
    } else {
      PlanIsStagePlan(p, texts, chunks, llm);
      var summaries, stop;
      sent, summaries, stop := RunMapStages(p, texts, chunks, llm, plan, Summaries(p, texts, chunks, llm));
      if !stop.NoEntries? { return stop, sent; }
      var available := AvailableStageTextChars(ReducePayload(p, texts, "", |chunks|));
      var reduce := ReducePayload(p, texts, CombineIntermediateSummaries(summaries, available), |chunks|);
      request, refused, reply := SendStage(reduce, CompressZone, 0, |chunks|, llm);
      assert request == ReduceRequest(p, texts, chunks, llm);
    }
    outcome, sent := SendLast(request, refused, reply, llm, sent, plan);
  }

  // The gate never fires on a run whose stages have room, and the condition is exact: when the
  // model always answers, a run is refused if and only if some stage has no room.
  lemma RefusedExactlyWithoutRoom(p: Payload, texts: Instructions, llm: (nat, Payload) -> Reply,
                                  outcome: Outcome, sent: seq<Payload>, chunks: seq<string>)
    requires AreChunks(chunks, CleanEntries(LogEntries(p), ChunkLimit(p, texts)), ChunkLimit(p, texts))
    requires EndedWith(Plan(p, texts, chunks, llm), Fits, llm, outcome, sent)
    requires chunks != []
    ensures StagesHaveRoom(p, texts, |chunks|) ==> !outcome.GateExceeded?
    ensures (forall k, request :: llm(k, request).Answer?) && !StagesHaveRoom(p, texts, |chunks|) ==>
      outcome.GateExceeded?
  {
    ChunksOpenPlainly(p, ChunkLimit(p, texts), chunks);
    GateOpens(p, texts, chunks, llm);
    GateIsExact(Plan(p, texts, chunks, llm), Fits, llm, outcome, sent);
  }
}
