/** What the requests of the map-reduce run carry of their chunks
    (scripts/bhm_crystallize_worker_synthesis.py:205-255, 336-405).  A chunk is limited by its characters,
    a request by those of its JSON encoding, so packing that loses nothing does not mean that everything
    reaches the model. */
module ChunkRequests {
  import opened Text
  import opened Seqs
  import opened MapReduce

  // ---------------------------------------------------------------- clipping

  lemma CutKeepsIff(text: string, overhead: nat)
    ensures CutText(text, overhead) == text <==> overhead + |Escape(text)| <= MAX_PAYLOAD_CHARS || |text| <= 1
  {
  }

  // The fitting loop leaves a payload as it is exactly when its encoding is within the limit, or the slot
  // has nothing to give.
  lemma CarriedWholeIff(p: Payload, zone: Zone, index: nat)
    requires index < |Items(p, zone)|
    ensures ClippedOnce(p, zone, index) == p <==> Fits(p) || |Items(p, zone)[index]| <= 1
  {
    var text, overhead := Items(p, zone)[index], Overhead(p, zone, index);
    SlotLengthOf(p, zone, index);
    SameSlot(p, zone, index);
    CutKeepsIff(text, overhead);
    assert Items(ClippedOnce(p, zone, index), zone)[index] == CutText(text, overhead);
  }

  // ---------------------------------------------------------------- lengths of encodings

  // A character that the encoding leaves alone.
  predicate IsBare(c: char) { c >= ' ' && c != '"' && c != '\\' }

  predicate Bare(text: string) { forall c <- text :: IsBare(c) }

  // What the encoding adds to a text.
  function Escapes(text: string): (n: nat) {
    EscapeGrowth(text, 0);
    |Escape(text)| - |text|
  }

  lemma EscapeSnoc(text: string, c: char)
    ensures |Escape(text + [c])| == |Escape(text)| + |EscapeChar(c)|
  {
    assert (text + [c])[..|text|] == text;
  }

  lemma {:induction false} EscapeConcat(a: string, b: string)
    ensures |Escape(a + b)| == |Escape(a)| + |Escape(b)|
  {
    if b == "" {
      assert a + b == a;
    } else {
      var init, last := b[..|b| - 1], b[|b| - 1];
      assert b == init + [last];
      EscapeConcat(a, init);
      SnocTwice(a, init, last);
    }
  }

  lemma SnocTwice(a: string, init: string, last: char)
    ensures |Escape(a + (init + [last]))| - |Escape(a + init)| == |Escape(init + [last])| - |Escape(init)|
  {
    EscapeSnoc(a + init, last);
    EscapeSnoc(init, last);
    assert a + (init + [last]) == (a + init) + [last];
  }

  lemma EscapeBareChar(c: char)
    requires IsBare(c)
    ensures EscapeChar(c) == [c]
  {
  }

  lemma {:induction false} EscapeBare(text: string)
    requires Bare(text)
    ensures Escape(text) == text
  {
    if text != "" {
      var init, last := text[..|text| - 1], text[|text| - 1];
      assert text == init + [last] && last in text;
      assert forall c <- init :: c in text;
      EscapeBare(init);
      EscapeBareChar(last);
    }
  }

  lemma {:induction false} DecIsBare(n: nat)
    ensures Bare(Dec(n))
  {
    DigitIsBare(n % 10);
    if n >= 10 {
      DecIsBare(n / 10);
      assert Dec(n) == Dec(n / 10) + [Digit(n % 10)];
    } else {
      assert Dec(n) == [Digit(n)];
    }
  }

  lemma DigitIsBare(d: nat)
    requires d < 10
    ensures IsBare(Digit(d))
  {
    assert Digit(d) as int == 48 + d;
  }

  lemma Dec3IsBare(n: nat)
    ensures Bare(Dec3(n))
  {
    DecIsBare(n);
  }

  // A bare header, a line break, and a text.
  lemma HeadedLength(header: string, text: string)
    requires Bare(header)
    ensures |Escape(header + "\n" + text)| == |header| + 2 + |Escape(text)|
  {
    EscapeConcat(header + "\n", text);
    EscapeSnoc(header, '\n');
    EscapeBare(header);
  }

  // The part of the session that names the map stage.
  function MapSuffix(index: nat, total: nat): string { "map-" + Dec3(index) + "-of-" + Dec3(total) }

  function ChunkHeader(index: nat, total: nat): string { "Chunk " + Dec(index) + "/" + Dec(total) }

  lemma SuffixLength(index: nat, total: nat)
    ensures |Escape(MapSuffix(index, total))| == 8 + |Dec3(index)| + |Dec3(total)|
  {
    Dec3IsBare(index);
    Dec3IsBare(total);
    EscapeBare(MapSuffix(index, total));
  }

  lemma SlotTextLength(index: nat, total: nat, chunk: string)
    ensures |Escape(ChunkHeader(index, total) + "\n" + chunk)| == 9 + |Dec(index)| + |Dec(total)| + |Escape(chunk)|
  {
    DecIsBare(index);
    DecIsBare(total);
    HeadedLength(ChunkHeader(index, total), chunk);
  }

  lemma SessionLength(p: Payload, suffix: string, other: string)
    ensures |Escape(StageSession(p, suffix))| - |Escape(suffix)| == |Escape(StageSession(p, other))| - |Escape(other)|
  {
    var front := (if p.session == "" then "fact-crystal-session" else p.session) + "::";
    EscapeConcat(front, suffix);
    EscapeConcat(front, other);
    assert StageSession(p, suffix) == front + suffix && StageSession(p, other) == front + other;
  }

  // Two payloads that differ in session and active items only.
  lemma LengthDifference(a: Payload, b: Payload)
    requires a.project == b.project && a.compress == b.compress && a.frozen == b.frozen
    ensures |Dumps(a)| - |Escape(a.session)| - |DumpList(a.active)|
         == |Dumps(b)| - |Escape(b.session)| - |DumpList(b.active)|
  {
    var mid := Pieces(b)[0 := DumpHead(a.project, a.session)];
    JoinReplaceLength(Pieces(b), "", 0, DumpHead(a.project, a.session));
    JoinReplaceLength(mid, "", 1, DumpList(a.active));
    assert Pieces(a) == mid[1 := DumpList(a.active)];
  }

  // How much longer the fixed part of a map request is than that of the first of one.
  function Growth(index: nat, total: nat): (n: nat)
  {
    DecAtLeast(index);
    DecAtLeast(total);
    |Dec3(index)| + |Dec3(total)| - 6 + |Dec(index)| + |Dec(total)| - 2
  }

  lemma DecAtLeast(n: nat)
    ensures |Dec(n)| >= 1 && |Dec3(n)| >= 3 && |Dec3(n)| == Max(3, |Dec(n)|)
  {
  }

  function MapTemplate(p: Payload, texts: Instructions): Payload { MapPayload(p, texts, "", 1, 1) }

  // The encoding of a map request, before it is fitted.
  lemma MapLength(p: Payload, texts: Instructions, chunk: string, index: nat, total: nat)
    ensures |Dumps(MapPayload(p, texts, chunk, index, total))|
         == |Dumps(MapTemplate(p, texts))| + Growth(index, total) + |Escape(chunk)|
  {
    LengthDifference(MapPayload(p, texts, chunk, index, total), MapTemplate(p, texts));
    MapSession(p, index, total);
    MapItems(p, texts, chunk, index, total);
    DecAtLeast(index);
    DecAtLeast(total);
  }

  lemma MapSession(p: Payload, index: nat, total: nat)
    ensures |Escape(StageSession(p, MapSuffix(index, total)))|
         == |Escape(StageSession(p, MapSuffix(1, 1)))| + |Dec3(index)| + |Dec3(total)| - 6
  {
    SessionLength(p, MapSuffix(index, total), MapSuffix(1, 1));
    SuffixLength(index, total);
    SuffixLength(1, 1);
  }

  lemma MapItems(p: Payload, texts: Instructions, chunk: string, index: nat, total: nat)
    ensures |DumpList(MapPayload(p, texts, chunk, index, total).active)|
         == |DumpList(MapTemplate(p, texts).active)| + |Dec(index)| + |Dec(total)| - 2 + |Escape(chunk)|
  {
    var full, empty := MapPayload(p, texts, chunk, index, total).active, MapTemplate(p, texts).active;
    DumpListSlot(empty, 1, full[1]);
    assert full == empty[1 := full[1]];
    SlotTextLength(index, total, chunk);
    SlotTextLength(1, 1, "");
    assert full[1] == ChunkHeader(index, total) + "\n" + chunk;
    assert empty[1] == ChunkHeader(1, 1) + "\n" + "";
  }

  // The only chunk has at least as much room as a chunk of several.
  lemma SingleLength(p: Payload, texts: Instructions, chunk: string)
    ensures |Dumps(SinglePayload(p, chunk))| == |Dumps(SinglePayload(p, ""))| + |Escape(chunk)|
    ensures |Dumps(SinglePayload(p, ""))| < |Dumps(MapTemplate(p, texts))|
  {
    SingleSlot(p, chunk);
    LengthDifference(SinglePayload(p, ""), MapTemplate(p, texts));
    SingleSession(p);
    ListLengths(texts.mapStage, MapTemplate(p, texts).active[1]);
  }

  lemma SingleSlot(p: Payload, chunk: string)
    ensures |Dumps(SinglePayload(p, chunk))| == |Dumps(SinglePayload(p, ""))| + |Escape(chunk)|
  {
    var single := SinglePayload(p, "");
    assert SinglePayload(p, chunk) == WithSlot(single, ActiveZone, 0, chunk);
    SlotLength(single, ActiveZone, 0, chunk);
    SlotLengthOf(single, ActiveZone, 0);
  }

  lemma SingleSession(p: Payload)
    ensures |Escape(StageSession(p, "bounded-single"))| == |Escape(StageSession(p, MapSuffix(1, 1)))|
  {
    SessionLength(p, "bounded-single", MapSuffix(1, 1));
    SameSuffixLength();
  }

  lemma SameSuffixLength()
    ensures |Escape("bounded-single")| == |Escape(MapSuffix(1, 1))|
  {
    BareLength("bounded-single");
    SuffixLength(1, 1);
    assert |Dec3(1)| == 3 by { DecAtLeast(1); assert |Dec(1)| == 1; }
  }

  lemma BareLength(text: string)
    requires Bare(text)
    ensures |Escape(text)| == |text|
  {
    EscapeBare(text);
  }

  lemma ListLengths(a: string, b: string)
    ensures |DumpList([""])| < |DumpList([a, b])|
  {
    assert QuoteEach([a, b])[1..] == [Quote(b)];
  }

  // ---------------------------------------------------------------- what a request carries

  // The request for a chunk before it is fitted.
  function WholeRequest(p: Payload, texts: Instructions, chunks: seq<string>, k: nat): Payload
    requires k < |chunks|
  {
    if |chunks| == 1 then SinglePayload(p, chunks[k]) else MapPayload(p, texts, chunks[k], k + 1, |chunks|)
  }

  // The fixed part of the k-th of several requests.
  function FixedPart(p: Payload, texts: Instructions, total: nat, k: nat): nat {
    if total == 1 then |Dumps(SinglePayload(p, ""))| else |Dumps(MapTemplate(p, texts))| + Growth(k + 1, total)
  }

  // A request carries its chunk whole exactly when the fixed part and the encoded chunk are within the
  // limit; a chunk that is one character and alone is never cut.
  lemma ChunkCarriedIff(p: Payload, texts: Instructions, chunks: seq<string>, k: nat)
    requires k < |chunks|
    ensures ChunkRequest(p, texts, chunks, k) == WholeRequest(p, texts, chunks, k)
       <==> (|| FixedPart(p, texts, |chunks|, k) + |Escape(chunks[k])| <= MAX_PAYLOAD_CHARS
             || (|chunks| == 1 && |chunks[k]| <= 1))
  {
    if |chunks| == 1 {
      CarriedWholeIff(SinglePayload(p, chunks[k]), ActiveZone, 0);
      SingleLength(p, texts, chunks[k]);
    } else {
      var full := MapPayload(p, texts, chunks[k], k + 1, |chunks|);
      CarriedWholeIff(full, ActiveZone, 1);
      MapLength(p, texts, chunks[k], k + 1, |chunks|);
      assert |full.active[1]| > 1;
    }
  }

  // The fixed part leaves more than the least chunk limit, so that limit is not used.
  predicate LeavesRoom(p: Payload, texts: Instructions) {
    |Dumps(MapTemplate(p, texts))| + 256 + 500 <= MAX_PAYLOAD_CHARS
  }

  // By the chunk limit: of several chunks one is carried whole exactly when it, its escapes and the growth
  // of the numbers exceed the limit by no more than the reserve of 256.
  lemma CarriedByLimitIff(p: Payload, texts: Instructions, chunks: seq<string>, k: nat)
    requires k < |chunks| && |chunks| > 1 && LeavesRoom(p, texts)
    ensures ChunkRequest(p, texts, chunks, k) == WholeRequest(p, texts, chunks, k)
       <==> |chunks[k]| + Escapes(chunks[k]) + Growth(k + 1, |chunks|) <= ChunkLimit(p, texts) + 256
  {
    ChunkCarriedIff(p, texts, chunks, k);
  }

  // So a chunk of a run is carried whole when it has few escapes: no more than 252 in a run of less than a
  // thousand chunks, and none in one of less than 10^66.
  lemma FewEscapesCarried(p: Payload, texts: Instructions, chunks: seq<string>, digits: nat, k: nat)
    requires LeavesRoom(p, texts) && k < |chunks|
    requires AreChunks(chunks, CleanEntries(LogEntries(p), ChunkLimit(p, texts)), ChunkLimit(p, texts))
    requires digits >= 3 && |chunks| < Pow10(digits) && Escapes(chunks[k]) + 4 * digits <= 264
    ensures ChunkRequest(p, texts, chunks, k) == WholeRequest(p, texts, chunks, k)
  {
    ChunkWithin(chunks, CleanEntries(LogEntries(p), ChunkLimit(p, texts)), ChunkLimit(p, texts), k);
    ChunkCarriedIff(p, texts, chunks, k);
    if |chunks| == 1 {
      SingleLength(p, texts, chunks[k]);
    } else {
      GrowthBound(k + 1, |chunks|, digits);
    }
  }

  lemma ChunkWithin(chunks: seq<string>, entries: seq<string>, limit: nat, k: nat)
    requires AreChunks(chunks, entries, limit) && k < |chunks|
    ensures |chunks[k]| <= limit
  {
    var groups :| ChunksOf(chunks, groups, entries, limit);
    PackingFacts(groups, entries, limit);
    assert chunks[k] in chunks;
  }

  lemma GrowthBound(index: nat, total: nat, digits: nat)
    requires digits >= 3 && index <= total < Pow10(digits)
    ensures Growth(index, total) <= 4 * digits - 8
  {
    DecLength(index, digits);
    DecLength(total, digits);
    DecAtLeast(index);
    DecAtLeast(total);
  }

  // The reduce request carries the merged summaries whole exactly when they fit into its encoding.
  lemma ReduceCarriedIff(p: Payload, texts: Instructions, chunks: seq<string>, llm: (nat, Payload) -> Reply)
    requires |chunks| > 1
    ensures var merged := Combined(p, texts, chunks, llm);
      ReduceRequest(p, texts, chunks, llm) == ReducePayload(p, texts, merged, |chunks|)
      <==> |Dumps(ReducePayload(p, texts, "", |chunks|))| + |Escape(merged)| <= MAX_PAYLOAD_CHARS
  {
    var merged, empty := Combined(p, texts, chunks, llm), ReducePayload(p, texts, "", |chunks|);
    var full := ReducePayload(p, texts, merged, |chunks|);
    CarriedWholeIff(full, CompressZone, 0);
    assert full == WithSlot(empty, CompressZone, 0, merged);
    SlotLength(empty, CompressZone, 0, merged);
    SlotLengthOf(empty, CompressZone, 0);
    MergedIsLong(Summaries(p, texts, chunks, llm), AvailableStageTextChars(empty));
  }

  lemma MergedIsLong(summaries: seq<string>, available: int)
    requires summaries != [] && available > 1
    ensures |CombineIntermediateSummaries(summaries, available)| > 1
  {
    FirstPart(SummaryParts(summaries, available));
    assert |SummaryParts(summaries, available)[0]| > 1;
  }

  // ---------------------------------------------------------------- a run that loses text

  function Quotes(n: nat): (text: string)
    ensures |text| == n && forall i | 0 <= i < n :: text[i] == '"'
  {
    seq(n, _ => '"')
  }

  lemma {:induction false} EscapedQuotes(n: nat)
    ensures |Escape(Quotes(n))| == 2 * n
  {
    if n > 0 {
      EscapedQuotes(n - 1);
      assert Quotes(n)[..n - 1] == Quotes(n - 1);
    }
  }

  function QuotesEntry(n: nat): string { "Active #1\n" + Quotes(n) }

  lemma QuotesEntryLength(n: nat)
    ensures |QuotesEntry(n)| == 10 + n && |Escape(QuotesEntry(n))| == 11 + 2 * n
  {
    HeadedLength("Active #1", Quotes(n));
    assert "Active #1" + "\n" + Quotes(n) == QuotesEntry(n);
    EscapedQuotes(n);
  }

  lemma OneItem(item: string)
    requires Strip(item) == item != ""
    ensures ZoneItems([item]) == [item]
  {
    assert [item][..0] == [];
  }

  lemma OneEntry(entry: string, limit: nat)
    requires Strip(entry) == entry != "" && |entry| <= limit
    ensures CleanEntries([entry], limit) == [entry]
  {
    assert [entry][..0] == [];
  }

  lemma QuotesAreOneEntry(p: Payload, n: nat, limit: nat)
    requires n > 0 && p.active == [Quotes(n)] && p.compress == [] && 10 + n <= limit
    ensures CleanEntries(LogEntries(p), limit) == [QuotesEntry(n)]
  {
    StripVisibleEnds(Quotes(n));
    OneItem(Quotes(n));
    FirstOfZone(Quotes(n));
    assert LogEntries(p) == [QuotesEntry(n)];
    QuotesEntryIsStripped(n);
    OneEntry(QuotesEntry(n), limit);
  }

  lemma FirstOfZone(item: string)
    ensures ZoneEntries("Active", [item]) == ["Active #1\n" + item]
  {
    assert "Active" + " #" + Dec(1) + "\n" == "Active #1\n";
  }

  lemma QuotesEntryIsStripped(n: nat)
    requires n > 0
    ensures Strip(QuotesEntry(n)) == QuotesEntry(n) && |QuotesEntry(n)| == 10 + n
  {
    StripVisibleEnds(QuotesEntry(n));
  }

  lemma OneEntryIsOneChunk(chunks: seq<string>, entry: string, limit: nat)
    requires AreChunks(chunks, [entry], limit)
    ensures chunks == [entry]
  {
    var groups :| ChunksOf(chunks, groups, [entry], limit);
    assert groups != [] && Flatten(groups) == [entry];
    assert |groups[0]| + |Flatten(groups[1..])| == 1;
    NothingLeft(groups[1..]);
    assert groups == [groups[0]] && groups[0] == [entry];
  }

  lemma NothingLeft(groups: seq<seq<string>>)
    requires Flatten(groups) == [] && forall i | 0 <= i < |groups| :: groups[i] != []
    ensures groups == []
  {
  }

  // One log of quotes that is within the chunk limit but not in its encoding: the run succeeds, and the
  // request it sent holds a part of the log only.
  method QuotesRun(p: Payload, texts: Instructions, n: nat, answer: string)
    returns (outcome: Outcome, sent: seq<Payload>)
    requires LeavesRoom(p, texts) && p.active == [Quotes(n)] && p.compress == []
    requires 10 + n <= ChunkLimit(p, texts)
    requires |Dumps(SinglePayload(p, ""))| + 11 + 2 * n > MAX_PAYLOAD_CHARS
    ensures outcome == Crystal(answer) && |sent| == 1 && |sent[0].active| == 1
    ensures sent[0].active[0] <= QuotesEntry(n) && |sent[0].active[0]| < |QuotesEntry(n)|
  {
    var llm := (k: nat, request: Payload) => Answer(answer);
    var chunks;
    outcome, sent, chunks := SynthesizeWithMapReduce(p, texts, llm);
    QuotesAreOneChunk(p, texts, n, chunks);
    OneRequestEnds(Plan(p, texts, chunks, llm), Fits, llm, outcome, sent, answer);
    QuotesAreCut(p, texts, n);
  }

  lemma OneRequestEnds<R>(plan: seq<R>, fits: R -> bool, llm: (nat, R) -> Reply, outcome: Outcome, sent: seq<R>,
                          answer: string)
    requires EndedWith(plan, fits, llm, outcome, sent) && !outcome.GateExceeded?
    requires |plan| == 1 && forall k, request :: llm(k, request) == Answer(answer)
    ensures outcome == Crystal(answer) && sent == plan
  {
  }

  lemma QuotesAreOneChunk(p: Payload, texts: Instructions, n: nat, chunks: seq<string>)
    requires LeavesRoom(p, texts) && p.active == [Quotes(n)] && p.compress == []
    requires 10 + n <= ChunkLimit(p, texts)
    requires |Dumps(SinglePayload(p, ""))| + 11 + 2 * n > MAX_PAYLOAD_CHARS
    requires AreChunks(chunks, CleanEntries(LogEntries(p), ChunkLimit(p, texts)), ChunkLimit(p, texts))
    ensures chunks == [QuotesEntry(n)] && StagesHaveRoom(p, texts, 1)
  {
    SingleLength(p, texts, "");
    QuotesAreOneEntry(p, n, ChunkLimit(p, texts));
    OneEntryIsOneChunk(chunks, QuotesEntry(n), ChunkLimit(p, texts));
    SlotLengthOf(SinglePayload(p, ""), ActiveZone, 0);
  }

  lemma QuotesAreCut(p: Payload, texts: Instructions, n: nat)
    requires |Dumps(SinglePayload(p, ""))| + 11 + 2 * n > MAX_PAYLOAD_CHARS
    ensures var request := ChunkRequest(p, texts, [QuotesEntry(n)], 0);
      && |request.active| == 1 && request.active[0] <= QuotesEntry(n)
      && |request.active[0]| < |QuotesEntry(n)|
  {
    QuotesEntryLength(n);
    ChunkCarriedIff(p, texts, [QuotesEntry(n)], 0);
    assert ChunkRequest(p, texts, [QuotesEntry(n)], 0).active[0] != QuotesEntry(n);
  }
}
