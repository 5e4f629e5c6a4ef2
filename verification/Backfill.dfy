/** The user-scope and data backfill of the vector store (scripts/apply-bhm-qdrant-user-scope-backfill.py):
    scan for rows with missing fields, back their payloads up, fill the fields in, and roll back.
    The process may stop between any two effects; `Session.fuel` is the number of effects that
    still happen, so a contract that holds for every fuel holds at every crash point. */
module Backfill {
  import opened Text
  import opened Payloads
  import opened Seqs

  datatype Key = Key(collection: string, pointId: string)

  type Points = map<Key, Payload>

  // SHA-256 as an injective digest.
  datatype PayloadDigest = PayloadDigest(of: Payload)

  datatype Row = Row(key: Key, sourceId: string, payload: Payload, digest: PayloadDigest,
                     addUser: bool, addData: bool, dataValue: string)

  // ---------------------------------------------------------------- the scan

  predicate LacksUser(p: Payload) { Get(p, "user_id") == Null || Get(p, "user_id") == Str("") }

  predicate LacksData(p: Payload) { Strip(TextOrEmpty(Get(p, "data"))) == "" }

  predicate IsTarget(p: Payload) { LacksUser(p) || LacksData(p) }

  function Content(p: Payload): string {
    TextOrEmpty(if Truthy(Get(p, "content")) then Get(p, "content") else Get(p, "memory"))
  }

  function RowOf(key: Key, p: Payload): Row {
    var data := Strip(TextOrEmpty(Get(p, "data")));
    Row(key, TextOrEmpty(Get(p, "source_id")), p, PayloadDigest(p), LacksUser(p), LacksData(p),
        if data != "" then data else Content(p))
  }

  predicate MismatchedUser(p: Payload, expected: string) {
    !LacksUser(p) && (match Get(p, "user_id") case Str(s) => s case Other(_, text) => text case Null => "") != expected
  }

  // A foreign user scope or a missing source id anywhere stops the apply before its first effect.
  predicate RefusesApply(p: Payload, expected: string) {
    MismatchedUser(p, expected) || TextOrEmpty(Get(p, "source_id")) == ""
  }

  // The target rows of the points listed by a scroll, in its order.
  function TargetRows(points: Points, order: seq<Key>): seq<Row>
    requires forall k <- order :: k in points
  {
    if order == [] then []
    else
      var rest, key := TargetRows(points, order[..|order| - 1]), order[|order| - 1];
      assert key in order;
      if IsTarget(points[key]) then rest + [RowOf(key, points[key])] else rest
  }

  // Rows of distinct points, each holding the payload its point has, and its digest.
  ghost predicate Snapshot(points: Points, rows: seq<Row>) {
    && (forall i | 0 <= i < |rows| :: rows[i].key in points && rows[i].payload == points[rows[i].key])
    && (forall i | 0 <= i < |rows| :: rows[i].digest == PayloadDigest(rows[i].payload))
    && (forall i | 0 <= i < |rows| :: rows[i].sourceId == TextOrEmpty(Get(rows[i].payload, "source_id")))
    && (forall i, j | 0 <= i < j < |rows| :: rows[i].key != rows[j].key)
  }

  // The flags and the data value of a row are those of its payload.
  ghost predicate Derived(rows: seq<Row>) {
    forall i | 0 <= i < |rows| :: rows[i] == RowOf(rows[i].key, rows[i].payload)
  }

  ghost predicate HasRow(rows: seq<Row>, key: Key) { exists i :: 0 <= i < |rows| && rows[i].key == key }

  // The scan finds every target point, and nothing else.
  lemma {:induction false} ScanFinds(points: Points, order: seq<Key>, key: Key)
    requires forall k <- order :: k in points
    ensures HasRow(TargetRows(points, order), key) <==> key in order && IsTarget(points[key])
  {
    if order != [] {
      var shorter, last := order[..|order| - 1], order[|order| - 1];
      assert order == shorter + [last];
      ScanFinds(points, shorter, key);
      var rest, rows := TargetRows(points, shorter), TargetRows(points, order);
      if HasRow(rest, key) {
        var i :| 0 <= i < |rest| && rest[i].key == key;
        assert rows[i].key == key;
      }
      if key == last && IsTarget(points[key]) { assert rows[|rest|].key == key; }
    }
  }

  lemma DistinctLast(order: seq<Key>)
    requires order != [] && NoRepeats(order)
    ensures NoRepeats(order[..|order| - 1]) && order[|order| - 1] !in order[..|order| - 1]
  {
  }

  // It finds each once, as it is in the store.
  lemma {:induction false} ScanIsSnapshot(points: Points, order: seq<Key>)
    requires (forall k <- order :: k in points) && NoRepeats(order)
    ensures Snapshot(points, TargetRows(points, order)) && Derived(TargetRows(points, order))
  {
    if order != [] {
      var shorter, last := order[..|order| - 1], order[|order| - 1];
      DistinctLast(order);
      ScanIsSnapshot(points, shorter);
      var rest := TargetRows(points, shorter);
      forall i | 0 <= i < |rest| ensures rest[i].key != last {
        assert HasRow(rest, rest[i].key);
        ScanFinds(points, shorter, rest[i].key);
      }
    }
  }

  predicate OneUser(points: Points, keys: seq<Key>, expected: string)
    requires forall k <- keys :: k in points
  {
    forall k <- keys :: !MismatchedUser(points[k], expected)
  }

  predicate HaveSources(points: Points, keys: seq<Key>)
    requires forall k <- keys :: k in points
  {
    forall k <- keys :: TextOrEmpty(Get(points[k], "source_id")) != ""
  }

  lemma ScanNext(points: Points, keys: seq<Key>, key: Key, expected: string)
    requires forall k <- keys + [key] :: k in points
    ensures forall k <- keys :: k in points
    ensures key in points
    ensures TargetRows(points, keys + [key])
         == TargetRows(points, keys) + (if IsTarget(points[key]) then [RowOf(key, points[key])] else [])
    ensures OneUser(points, keys + [key], expected)
       <==> OneUser(points, keys, expected) && !MismatchedUser(points[key], expected)
    ensures HaveSources(points, keys + [key])
       <==> HaveSources(points, keys) && TextOrEmpty(Get(points[key], "source_id")) != ""
  {
    assert (keys + [key])[..|keys|] == keys;
    assert key in keys + [key] && forall k <- keys :: k in keys + [key];
  }

  // _target_rows with the counters the apply guard reads.
  method ScanTargets(points: Points, order: seq<Key>, expected: string)
    returns (rows: seq<Row>, mismatched: nat, missingSource: nat)
    requires forall k <- order :: k in points
    ensures rows == TargetRows(points, order)
    ensures mismatched == 0 <==> OneUser(points, order, expected)
    ensures missingSource == 0 <==> HaveSources(points, order)
  {
    rows, mismatched, missingSource := [], 0, 0;
    for i := 0 to |order|
      invariant forall k <- order[..i] :: k in points
      invariant rows == TargetRows(points, order[..i])
      invariant mismatched == 0 <==> OneUser(points, order[..i], expected)
      invariant missingSource == 0 <==> HaveSources(points, order[..i])
    {
      TakeNext(order, i);
      ScanNext(points, order[..i], order[i], expected);
      var payload := points[order[i]];
      if TextOrEmpty(Get(payload, "source_id")) == "" { missingSource := missingSource + 1; }
      if MismatchedUser(payload, expected) { mismatched := mismatched + 1; }
      if IsTarget(payload) { rows := rows + [RowOf(order[i], payload)]; }
    }
    assert order[..|order|] == order;
  }

  // ---------------------------------------------------------------- apply and rollback on values

  // The fields one row fills in.
  function Patch(row: Row, userId: string): Payload {
    (if row.addUser then map["user_id" := Str(userId)] else map[])
    + (if row.addData then map["data" := Str(row.dataValue)] else map[])
  }

  // set_payload merges the fields of the patch into an existing point.
  function SetPayload(points: Points, key: Key, patch: Payload): Points {
    if key in points then points[key := points[key] + patch] else points
  }

  // overwrite_payload replaces the payload of an existing point.
  function OverwritePayload(points: Points, key: Key, payload: Payload): Points {
    if key in points then points[key := payload] else points
  }

  lemma EmptyPatch(points: Points, key: Key)
    ensures SetPayload(points, key, map[]) == points
  {
    if key in points { assert points[key] + map[] == points[key]; }
  }

  predicate Underivable(row: Row) { row.addData && row.dataValue == "" }

  // The points after the first k rows have been applied.
  function Applied(points: Points, rows: seq<Row>, userId: string, k: nat): Points
    requires k <= |rows|
  {
    if k == 0 then points
    else SetPayload(Applied(points, rows, userId, k - 1), rows[k - 1].key, Patch(rows[k - 1], userId))
  }

  datatype BackupRow = BackupRow(key: Key, sourceId: string, payload: Payload, digest: PayloadDigest)

  function BackupRows(rows: seq<Row>): (r: seq<BackupRow>)
    ensures |r| == |rows|
    ensures forall i | 0 <= i < |r| ::
              r[i] == BackupRow(rows[i].key, rows[i].sourceId, rows[i].payload, rows[i].digest)
  {
    seq(|rows|, i requires 0 <= i < |rows| => BackupRow(rows[i].key, rows[i].sourceId, rows[i].payload, rows[i].digest))
  }

  // The points after the first k backup rows have been put back.
  function Restored(points: Points, rows: seq<BackupRow>, k: nat): Points
    requires k <= |rows|
  {
    if k == 0 then points
    else OverwritePayload(Restored(points, rows, k - 1), rows[k - 1].key, rows[k - 1].payload)
  }

  // `now` is `was`, except for whatever happened to the payloads of the rows' points.
  ghost predicate DiffersOnRowsOnly(now: Points, was: Points, rows: seq<Row>) {
    now.Keys == was.Keys && forall key | key in was && !HasRow(rows, key) :: now[key] == was[key]
  }

  lemma {:induction false} AppliedDiffers(points: Points, rows: seq<Row>, userId: string, k: nat)
    requires k <= |rows|
    ensures DiffersOnRowsOnly(Applied(points, rows, userId, k), points, rows)
  {
    if k > 0 {
      AppliedDiffers(points, rows, userId, k - 1);
      assert HasRow(rows, rows[k - 1].key);
    }
  }

  lemma {:induction false} RestoredDiffers(now: Points, was: Points, rows: seq<Row>, k: nat)
    requires DiffersOnRowsOnly(now, was, rows) && k <= |rows|
    ensures DiffersOnRowsOnly(Restored(now, BackupRows(rows), k), was, rows)
  {
    if k > 0 {
      RestoredDiffers(now, was, rows, k - 1);
      assert HasRow(rows, rows[k - 1].key);
    }
  }

  lemma {:induction false} RestoredAt(now: Points, was: Points, saved: seq<BackupRow>, k: nat, i: nat)
    requires now.Keys == was.Keys && i < k <= |saved|
    requires forall j | i <= j < |saved| :: saved[j].key in was && saved[j].payload == was[saved[j].key]
    ensures Restored(now, saved, k).Keys == was.Keys
    ensures Restored(now, saved, k)[saved[i].key] == was[saved[i].key]
  {
    RestoredKeys(now, saved, k - 1);
    if i < k - 1 {
      RestoredAt(now, was, saved, k - 1, i);
    }
  }

  lemma {:induction false} RestoredKeys(now: Points, saved: seq<BackupRow>, k: nat)
    requires k <= |saved|
    ensures Restored(now, saved, k).Keys == now.Keys
  {
    if k > 0 { RestoredKeys(now, saved, k - 1); }
  }

  // Putting every row back restores the whole store, whatever happened to the rows' payloads:
  // after any prefix of the apply, and after any interrupted rollback.
  lemma RestoreIsExact(now: Points, was: Points, rows: seq<Row>)
    requires Snapshot(was, rows) && DiffersOnRowsOnly(now, was, rows)
    ensures Restored(now, BackupRows(rows), |rows|) == was
  {
    RestoredDiffers(now, was, rows, |rows|);
    var back := Restored(now, BackupRows(rows), |rows|);
    forall key | key in was ensures back[key] == was[key] {
      if HasRow(rows, key) { RestoredRow(now, was, rows, key); }
    }
  }

  lemma RestoredRow(now: Points, was: Points, rows: seq<Row>, key: Key)
    requires Snapshot(was, rows) && now.Keys == was.Keys && HasRow(rows, key)
    ensures key in was && Restored(now, BackupRows(rows), |rows|).Keys == was.Keys
    ensures Restored(now, BackupRows(rows), |rows|)[key] == was[key]
  {
    var i :| 0 <= i < |rows| && rows[i].key == key;
    RestoredAt(now, was, BackupRows(rows), |rows|, i);
  }

  lemma RollbackUndoesAnyPrefix(points: Points, rows: seq<Row>, userId: string, k: nat, j: nat)
    requires Snapshot(points, rows) && k <= |rows| && j <= |rows|
    ensures var stopped := Restored(Applied(points, rows, userId, k), BackupRows(rows), j);
      Restored(stopped, BackupRows(rows), |rows|) == points
  {
    AppliedDiffers(points, rows, userId, k);
    RestoredDiffers(Applied(points, rows, userId, k), points, rows, j);
    RestoreIsExact(Restored(Applied(points, rows, userId, k), BackupRows(rows), j), points, rows);
  }

  // What the apply leaves at the point of row i.
  lemma {:induction false} AppliedAt(points: Points, rows: seq<Row>, userId: string, k: nat, i: nat)
    requires Snapshot(points, rows) && i < |rows| && k <= |rows|
    ensures rows[i].key in Applied(points, rows, userId, k)
    ensures Applied(points, rows, userId, k)[rows[i].key]
         == if i < k then rows[i].payload + Patch(rows[i], userId) else rows[i].payload
  {
    if k > 0 {
      AppliedAt(points, rows, userId, k - 1, i);
      if i != k - 1 { assert rows[i].key != rows[k - 1].key; }
    }
  }

  lemma FieldsAfterPatch(row: Row, userId: string)
    requires row == RowOf(row.key, row.payload)
    ensures LacksUser(row.payload + Patch(row, userId)) <==> row.addUser && userId == ""
    ensures LacksData(row.payload + Patch(row, userId)) <==> row.addData && Blank(row.dataValue)
  {
    StripBlank(row.dataValue);
  }

  lemma FieldAfterPatch(row: Row, userId: string, field: string)
    requires row == RowOf(row.key, row.payload)
    ensures var now := row.payload + Patch(row, userId);
      || Get(now, field) == Get(row.payload, field)
      || (field == "user_id" && LacksUser(row.payload) && Get(now, field) == Str(userId))
      || (field == "data" && LacksData(row.payload)
          && exists text :: StandsIn(row.payload, text) && Get(now, field) == Str(text))
  {
    StandInText(row.payload);
  }

  // ---------------------------------------------------------------- what an apply does, field by field

  // The field is there with more than whitespace in its text.
  ghost predicate HasText(v: Value) {
    match v case Null => false case Str(s) => Strip(s) != "" case Other(truthy, text) => truthy && Strip(text) != ""
  }

  // The text that stands in for missing data: the content, unless it is missing or empty, else the memory.
  ghost predicate StandsIn(p: Payload, text: string) {
    match Get(p, "content")
    case Other(true, content) => text == content
    case Str(content) => if content != "" then text == content else IsMemory(p, text)
    case _ => IsMemory(p, text)
  }

  ghost predicate IsMemory(p: Payload, text: string) {
    match Get(p, "memory")
    case Str(memory) => text == memory
    case Other(true, memory) => text == memory
    case _ => text == ""
  }

  // A filled point: a user id that was missing or empty is the expected one, data without a text is the text
  // that stands in for it and not empty, and everything else is as before.
  ghost predicate Filled(was: Payload, now: Payload, userId: string) {
    && now.Keys <= was.Keys + {"user_id", "data"} && was.Keys <= now.Keys
    && (forall field <- was.Keys | field != "user_id" && field != "data" :: now[field] == was[field])
    && (if Get(was, "user_id") == Null || Get(was, "user_id") == Str("") then Get(now, "user_id") == Str(userId)
        else Get(now, "user_id") == Get(was, "user_id"))
    && (if HasText(Get(was, "data")) then Get(now, "data") == Get(was, "data")
        else exists text :: text != "" && StandsIn(was, text) && Get(now, "data") == Str(text))
  }

  // Why a point refuses the whole apply: a user id of somebody else, or no source id.
  ghost predicate Foreign(p: Payload, userId: string) {
    match Get(p, "user_id")
    case Null => false
    case Str(s) => s != "" && s != userId
    case Other(_, text) => text != userId
  }

  ghost predicate Anonymous(p: Payload) {
    match Get(p, "source_id") case Null => true case Str(s) => s == "" case Other(truthy, text) => !truthy || text == ""
  }

  lemma RefusesIff(p: Payload, userId: string)
    ensures RefusesApply(p, userId) <==> Foreign(p, userId) || Anonymous(p)
  {
  }

  lemma PatchFills(row: Row, userId: string)
    requires row == RowOf(row.key, row.payload) && !Underivable(row)
    ensures Filled(row.payload, row.payload + Patch(row, userId), userId)
  {
    var p := row.payload;
    StandInText(p);
    if !HasText(Get(p, "data")) { assert row.dataValue == Content(p) != ""; }
  }

  lemma StandInText(p: Payload)
    ensures StandsIn(p, Content(p)) && (HasText(Get(p, "data")) <==> !LacksData(p))
    ensures !HasText(Get(p, "data")) ==> Strip(TextOrEmpty(Get(p, "data"))) == ""
  {
    assert Strip("") == "";
  }

  lemma UntouchedIsFilled(p: Payload, userId: string)
    requires !IsTarget(p)
    ensures Filled(p, p, userId)
  {
    StandInText(p);
  }

  // After any prefix of the apply that derives its data every point is as it was or filled; after all of it
  // every listed point is filled.
  lemma AppliedFills(points: Points, order: seq<Key>, userId: string, k: nat, key: Key)
    requires (forall key <- order :: key in points) && NoRepeats(order) && key in points
    requires k <= FirstUnderivable(TargetRows(points, order))
    ensures var rows := TargetRows(points, order); var now := Applied(points, rows, userId, k);
      && now.Keys == points.Keys
      && (now[key] == points[key] || (key in order && Filled(points[key], now[key], userId)))
      && (k == |rows| && key in order ==> Filled(points[key], now[key], userId))
  {
    var rows := TargetRows(points, order);
    ScanIsSnapshot(points, order);
    AppliedDiffers(points, rows, userId, k);
    ScanFinds(points, order, key);
    if HasRow(rows, key) {
      var i :| 0 <= i < |rows| && rows[i].key == key;
      AppliedAt(points, rows, userId, k, i);
      if i < k { PatchFills(rows[i], userId); }
    } else if key in order {
      UntouchedIsFilled(points[key], userId);
    }
  }

  // The apply touches no field but a missing user id and a blank data field.
  lemma OnlyMissingFieldsChange(points: Points, rows: seq<Row>, userId: string, k: nat, key: Key, field: string)
    requires Snapshot(points, rows) && Derived(rows) && k <= |rows| && key in points
    ensures key in Applied(points, rows, userId, k)
    ensures var now := Applied(points, rows, userId, k)[key];
      || Get(now, field) == Get(points[key], field)
      || (field == "user_id" && LacksUser(points[key]) && Get(now, field) == Str(userId))
      || (field == "data" && LacksData(points[key])
          && exists text :: StandsIn(points[key], text) && Get(now, field) == Str(text))
  {
    AppliedDiffers(points, rows, userId, k);
    if HasRow(rows, key) {
      var i :| 0 <= i < |rows| && rows[i].key == key;
      AppliedAt(points, rows, userId, k, i);
      FieldAfterPatch(rows[i], userId, field);
    }
  }

  ghost predicate Refills(row: Row, userId: string) {
    (row.addUser ==> userId != "") && (row.addData ==> !Blank(row.dataValue))
  }

  lemma StillTargeted(points: Points, order: seq<Key>, userId: string, key: Key)
    requires (forall k <- order :: k in points) && key in order
    ensures var rows := TargetRows(points, order);
      var after := Applied(points, rows, userId, |rows|);
      key in after && (IsTarget(after[key]) ==> HasRow(rows, key))
  {
    AppliedDiffers(points, TargetRows(points, order), userId, |TargetRows(points, order)|);
    ScanFinds(points, order, key);
  }

  // After a completed apply a fresh scan finds nothing, exactly when every user id written is
  // non-empty and every derived data value holds more than whitespace.
  lemma RescanIsEmpty(points: Points, order: seq<Key>, userId: string)
    requires (forall k <- order :: k in points) && NoRepeats(order)
    ensures var rows := TargetRows(points, order);
      var after := Applied(points, rows, userId, |rows|);
      (forall k <- order :: k in after) &&
      (TargetRows(after, order) == [] <==> forall i | 0 <= i < |rows| :: Refills(rows[i], userId))
  {
    var rows := TargetRows(points, order);
    ScanIsSnapshot(points, order);
    AppliedDiffers(points, rows, userId, |rows|);
    var after := Applied(points, rows, userId, |rows|);
    var again := TargetRows(after, order);
    forall i | 0 <= i < |rows| ensures HasRow(again, rows[i].key) <==> !Refills(rows[i], userId) {
      assert HasRow(rows, rows[i].key);
      ScanFinds(points, order, rows[i].key);
      ScanFinds(after, order, rows[i].key);
      AppliedAt(points, rows, userId, |rows|, i);
      FieldsAfterPatch(rows[i], userId);
    }
    if again != [] {
      var key := again[0].key;
      assert HasRow(again, key);
      ScanFinds(after, order, key);
      StillTargeted(points, order, userId, key);
      var i :| 0 <= i < |rows| && rows[i].key == key;
      assert !Refills(rows[i], userId);
    }
  }

  // ---------------------------------------------------------------- the backup on disk

  // Canonical JSON of a backup row: invertible, an object, and no proper prefix is an object.
  datatype Codec = Codec(encode: BackupRow -> string, decode: string -> Option<BackupRow>)

  ghost predicate Lawful(codec: Codec) {
    && (forall row :: codec.decode(codec.encode(row)) == Some(row))
    && (forall row :: codec.encode(row) != "" && codec.encode(row)[0] == '{')
    && (forall row, n: nat | n < |codec.encode(row)| :: codec.decode(codec.encode(row)[..n]) == None)
  }

  function BackupLines(codec: Codec, rows: seq<BackupRow>): (r: seq<string>)
    ensures |r| == |rows| && forall i | 0 <= i < |r| :: r[i] == codec.encode(rows[i])
  {
    seq(|rows|, i requires 0 <= i < |rows| => codec.encode(rows[i]))
  }

  // SHA-256 of a file, as an injective digest.
  datatype FileDigest = FileDigest(of: string)

  const BACKUP_VERSION := 1
  const PAYLOAD_FILE := "payloads.jsonl"

  datatype Manifest = Manifest(version: int, payloadFile: string, targetCount: int, payloadDigest: FileDigest)

  datatype Disk = Disk(payloads: Option<string>, manifest: Option<Manifest>)

  // Every line with more than whitespace must decode.
  function ParseLines(codec: Codec, lines: seq<string>): Option<seq<BackupRow>> {
    if lines == [] then Some([])
    else if Strip(lines[0]) == "" then ParseLines(codec, lines[1..])
    else
      match (codec.decode(lines[0]), ParseLines(codec, lines[1..]))
      case (Some(row), Some(rest)) => Some([row] + rest)
      case _ => None
  }

  // _load_backup; None stands for any of its refusals.
  function LoadBackup(codec: Codec, disk: Disk): Option<seq<BackupRow>> {
    match (disk.manifest, disk.payloads)
    case (Some(manifest), Some(text)) =>
      if manifest.version != BACKUP_VERSION || manifest.payloadFile != PAYLOAD_FILE then None
      else if FileDigest(text) != manifest.payloadDigest then None
      else (match ParseLines(codec, SplitLines(text))
            case Some(rows) =>
              if |rows| == (if manifest.targetCount == 0 then -1 else manifest.targetCount) then Some(rows) else None
            case None => None)
    case _ => None
  }

  // The rows are what the lines with more than whitespace say, in order.
  ghost predicate SaidBy(codec: Codec, lines: seq<string>, rows: seq<BackupRow>) {
    AllSay(codec, Filter(lines, (line: string) => Strip(line) != ""), rows)
  }

  ghost predicate AllSay(codec: Codec, lines: seq<string>, rows: seq<BackupRow>) {
    |lines| == |rows| && forall i | 0 <= i < |rows| :: codec.decode(lines[i]) == Some(rows[i])
  }

  lemma AllSayNext(codec: Codec, line: string, rest: seq<string>, rows: seq<BackupRow>)
    ensures AllSay(codec, [line] + rest, rows)
       <==> rows != [] && codec.decode(line) == Some(rows[0]) && AllSay(codec, rest, rows[1..])
  {
    var all := [line] + rest;
    if AllSay(codec, all, rows) {
      forall i | 0 <= i < |rest| ensures codec.decode(rest[i]) == Some(rows[1..][i]) {
        assert codec.decode(all[i + 1]) == Some(rows[i + 1]);
      }
    }
    if rows != [] && codec.decode(line) == Some(rows[0]) && AllSay(codec, rest, rows[1..]) {
      forall i | 0 <= i < |rows| ensures codec.decode(all[i]) == Some(rows[i]) {
        if i > 0 { assert codec.decode(rest[i - 1]) == Some(rows[1..][i - 1]); }
      }
    }
  }

  // A backup is bound to its manifest: of this version, by the name, the digest and the number of rows.
  ghost predicate Bound(codec: Codec, disk: Disk, rows: seq<BackupRow>) {
    && disk.manifest.Some? && disk.payloads.Some?
    && disk.manifest.value.version == 1 && disk.manifest.value.payloadFile == "payloads.jsonl"
    && disk.manifest.value.payloadDigest == FileDigest(disk.payloads.value)
    && disk.manifest.value.targetCount == |rows| != 0
    && SaidBy(codec, SplitLines(disk.payloads.value), rows)
  }

  lemma {:induction false} FilterFront<T>(s: seq<T>, keep: T -> bool)
    requires s != []
    ensures Filter(s, keep) == (if keep(s[0]) then [s[0]] else []) + Filter(s[1..], keep)
  {
    if |s| > 1 {
      FilterFront(s[..|s| - 1], keep);
      assert s[..|s| - 1][1..] == s[1..][..|s| - 2];
    }
  }

  lemma {:induction false} ParseIff(codec: Codec, lines: seq<string>, rows: seq<BackupRow>)
    ensures ParseLines(codec, lines) == Some(rows) <==> SaidBy(codec, lines, rows)
  {
    if lines != [] {
      var keep := (line: string) => Strip(line) != "";
      FilterFront(lines, keep);
      if Strip(lines[0]) == "" {
        ParseIff(codec, lines[1..], rows);
      } else {
        ParseNext(codec, lines, rows);
        AllSayNext(codec, lines[0], Filter(lines[1..], keep), rows);
        if rows != [] { ParseIff(codec, lines[1..], rows[1..]); }
      }
    }
  }

  lemma ParseNext(codec: Codec, lines: seq<string>, rows: seq<BackupRow>)
    requires lines != [] && Strip(lines[0]) != ""
    ensures ParseLines(codec, lines) == Some(rows) <==>
      rows != [] && codec.decode(lines[0]) == Some(rows[0]) && ParseLines(codec, lines[1..]) == Some(rows[1..])
  {
    if rows != [] { assert rows == [rows[0]] + rows[1..]; }
  }

  // The loader accepts a backup exactly when it is bound to its manifest, and then reads what it says.
  lemma LoadBackupIff(codec: Codec, disk: Disk, rows: seq<BackupRow>)
    ensures LoadBackup(codec, disk) == Some(rows) <==> Bound(codec, disk, rows)
  {
    if disk.payloads.Some? { ParseIff(codec, SplitLines(disk.payloads.value), rows); }
  }

  function PayloadText(codec: Codec, rows: seq<BackupRow>): string { FileText(BackupLines(codec, rows)) }

  function Written(codec: Codec, rows: seq<BackupRow>): Disk {
    var text := PayloadText(codec, rows);
    Disk(Some(text), Some(Manifest(BACKUP_VERSION, PAYLOAD_FILE, |rows|, FileDigest(text))))
  }

  // The check _write_backup ends with.
  predicate Verifies(codec: Codec, rows: seq<BackupRow>) {
    SplitLines(PayloadText(codec, rows)) == BackupLines(codec, rows)
  }

  lemma EncodedIsNotBlank(codec: Codec, row: BackupRow, n: nat)
    requires Lawful(codec) && 0 < n <= |codec.encode(row)|
    ensures Strip(codec.encode(row)[..n]) != ""
  {
    var text := codec.encode(row)[..n];
    assert text[0] == '{' && text[0] in text;
    StripBlank(text);
  }

  lemma {:induction false} ParseInvertsLines(codec: Codec, rows: seq<BackupRow>)
    requires Lawful(codec)
    ensures ParseLines(codec, BackupLines(codec, rows)) == Some(rows)
  {
    if rows != [] {
      var line := codec.encode(rows[0]);
      EncodedIsNotBlank(codec, rows[0], |line|);
      assert line[..|line|] == line;
      ParseInvertsLines(codec, rows[1..]);
      assert BackupLines(codec, rows)[1..] == BackupLines(codec, rows[1..]);
      assert [rows[0]] + rows[1..] == rows;
    }
  }

  lemma {:induction false} FirstBreakInside(line: string, rest: string)
    requires !OneLine(line)
    ensures FirstBreak(line + rest) == FirstBreak(line) < |line|
  {
    if !IsLineBreak(line[0]) {
      assert line == [line[0]] + line[1..];
      assert (line + rest)[1..] == line[1..] + rest;
      FirstBreakInside(line[1..], rest);
    }
  }

  // A backup whose lines do not survive `splitlines` does not parse either.
  lemma {:induction false} TornLinesDoNotParse(codec: Codec, rows: seq<BackupRow>)
    requires Lawful(codec)
    requires exists l <- BackupLines(codec, rows) :: !OneLine(l)
    ensures ParseLines(codec, SplitLines(PayloadText(codec, rows))) == None
  {
    var lines, tail := BackupLines(codec, rows), FileText(BackupLines(codec, rows[1..]));
    var line, text := lines[0], FileText(lines);
    assert lines[1..] == BackupLines(codec, rows[1..]);
    FileTextCons(lines);
    if OneLine(line) {
      SplitFirstLine(line, tail);
      EncodedIsNotBlank(codec, rows[0], |line|);
      assert line[..|line|] == line;
      assert exists l <- lines[1..] :: !OneLine(l);
      TornLinesDoNotParse(codec, rows[1..]);
    } else {
      FirstBreakInside(line, "\n" + tail);
      assert text == line + ("\n" + tail);
      var n := FirstBreak(line);
      assert n != 0;
      EncodedIsNotBlank(codec, rows[0], n);
      assert text[..n] == line[..n];
    }
  }

  lemma SplitFirstLine(line: string, rest: string)
    requires OneLine(line)
    ensures SplitLines(line + "\n" + rest) == [line] + SplitLines(rest)
  {
    var text := line + "\n" + rest;
    FirstBreakOfLine(line, rest);
    assert text[|line|] == '\n' && text[..|line|] == line && text[|line| + 1..] == rest;
  }

  // Print and parse are inverse.  The written files load back as the very rows exactly when the
  // write passed its check and there was something to write; otherwise the loader refuses them.
  lemma BackupRoundTrip(codec: Codec, rows: seq<BackupRow>)
    requires Lawful(codec)
    ensures LoadBackup(codec, Written(codec, rows)) == if Verifies(codec, rows) && rows != [] then Some(rows) else None
    ensures Verifies(codec, rows) <==> forall l <- BackupLines(codec, rows) :: OneLine(l)
  {
    SplitLinesRoundTrip(BackupLines(codec, rows));
    if Verifies(codec, rows) {
      ParseInvertsLines(codec, rows);
    } else {
      TornLinesDoNotParse(codec, rows);
    }
  }

  // ---------------------------------------------------------------- how a run ends

  datatype Status = Done | Raised | Crashed

  /** Where a run stops: the store, the backup directory, and whether it was done, raised or died. */
  datatype End = End(points: Points, disk: Disk, status: Status)

  // The first row whose data cannot be derived; the number of rows when there is none.
  function FirstUnderivable(rows: seq<Row>): (k: nat)
    ensures k <= |rows| && (k < |rows| ==> Underivable(rows[k]))
    ensures forall i | 0 <= i < k :: !Underivable(rows[i])
  {
    if rows == [] then 0
    else
      var k := FirstUnderivable(rows[..|rows| - 1]);
      if k < |rows| - 1 || Underivable(rows[|rows| - 1]) then k else |rows|
  }

  // The apply action with so many effects left.
  ghost function ApplyEnd(codec: Codec, points: Points, disk: Disk, order: seq<Key>, userId: string, fuel: nat): End
    requires forall key <- order :: key in points
  {
    var rows := TargetRows(points, order);
    var saved := BackupRows(rows);
    if exists key <- order :: RefusesApply(points[key], userId) then End(points, disk, Raised)
    else if fuel == 0 then End(points, disk, Crashed)
    else if fuel == 1 then End(points, Disk(Some(PayloadText(codec, saved)), disk.manifest), Crashed)
    else if !Verifies(codec, saved) then End(points, Written(codec, saved), Raised)
    else
      var k := Min(fuel - 2, FirstUnderivable(rows));
      End(Applied(points, rows, userId, k), Written(codec, saved),
          if k == |rows| then Done else if k == FirstUnderivable(rows) then Raised else Crashed)
  }

  // How many saved rows a rollback puts back before a digest that does not match.
  function SoundRows(saved: seq<BackupRow>): (k: nat)
    ensures k <= |saved| && (k < |saved| ==> saved[k].digest != PayloadDigest(saved[k].payload))
    ensures forall i | 0 <= i < k :: saved[i].digest == PayloadDigest(saved[i].payload)
  {
    if saved == [] then 0
    else
      var k := SoundRows(saved[..|saved| - 1]);
      var last := saved[|saved| - 1];
      if k < |saved| - 1 || last.digest != PayloadDigest(last.payload) then k else |saved|
  }

  // The rollback action with so many effects left.
  function RollbackEnd(codec: Codec, points: Points, disk: Disk, fuel: nat): End {
    match LoadBackup(codec, disk)
    case None => End(points, disk, Raised)
    case Some(saved) =>
      var k := Min(fuel, SoundRows(saved));
      End(Restored(points, saved, k), disk,
          if k == |saved| then Done else if k == SoundRows(saved) then Raised else Crashed)
  }

  // A rollback with all the effects it needs.
  function RolledBack(codec: Codec, points: Points, disk: Disk): Points {
    match LoadBackup(codec, disk)
    case None => points
    case Some(saved) => Restored(points, saved, SoundRows(saved))
  }

  // ---------------------------------------------------------------- the script

  /** One run of the script against the store and its backup directory. */
  class Session {
    var points: Points
    var disk: Disk
    var fuel: nat

    constructor (points: Points, disk: Disk, fuel: nat)
      ensures this.points == points && this.disk == disk && this.fuel == fuel
    {
      this.points, this.disk, this.fuel := points, disk, fuel;
    }

    // Whether the process lives to perform its next effect.
    method Alive() returns (alive: bool)
      modifies this`fuel
      ensures alive <==> old(fuel) > 0
      ensures fuel == if alive then old(fuel) - 1 else 0
    {
      alive := fuel > 0;
      if alive { fuel := fuel - 1; }
    }

    // _write_backup: payload file, manifest, then the check on what was written.
    method WriteBackup(codec: Codec, rows: seq<BackupRow>) returns (status: Status)
      modifies this`disk, this`fuel
      ensures status.Crashed? <==> old(fuel) < 2
      ensures status.Done? <==> old(fuel) >= 2 && Verifies(codec, rows)
      ensures fuel == if old(fuel) < 2 then 0 else old(fuel) - 2
      ensures disk == if old(fuel) == 0 then old(disk)
                      else if old(fuel) == 1 then Disk(Some(PayloadText(codec, rows)), old(disk).manifest)
                      else Written(codec, rows)
      ensures old(fuel) >= 2 ==>
        && disk.manifest.Some? && disk.payloads.Some?
        && disk.manifest.value == Manifest(1, "payloads.jsonl", |rows|, FileDigest(disk.payloads.value))
    {
      var alive := Alive();
      if !alive { return Crashed; }
      disk := disk.(payloads := Some(PayloadText(codec, rows)));
      alive := Alive();
      if !alive { return Crashed; }
      var manifest := Manifest(BACKUP_VERSION, PAYLOAD_FILE, |rows|, FileDigest(PayloadText(codec, rows)));
      disk := disk.(manifest := Some(manifest));
      status := if Verifies(codec, rows) then Done else Raised;
    }

    // _apply: it goes on while the process lives and the next row's data can be derived.
    method Apply(rows: seq<Row>, userId: string) returns (status: Status, ghost k: nat)
      modifies this`points, this`fuel
      ensures k <= |rows| && points == Applied(old(points), rows, userId, k)
      ensures fuel + Effects(rows, userId, k) == old(fuel)
      ensures k <= FirstUnderivable(rows)
      ensures status.Done? <==> k == |rows|
      ensures status.Raised? <==> k < |rows| && k == FirstUnderivable(rows)
      ensures status.Crashed? ==> fuel == 0 && Patch(rows[k], userId) != map[]
    {
      k := 0;
      for i := 0 to |rows|
        invariant k == i <= FirstUnderivable(rows) && points == Applied(old(points), rows, userId, i)
        invariant fuel + Effects(rows, userId, i) == old(fuel)
      {
        if rows[i].dataValue == "" && rows[i].addData { return Raised, k; }
        var patch := Patch(rows[i], userId);
        if patch != map[] {
          var alive := Alive();
          if !alive { return Crashed, k; }
          points := SetPayload(points, rows[i].key, patch);
        } else {
          EmptyPatch(points, rows[i].key);
        }
        k := i + 1;
      }
      status := Done;
    }

    // The apply action: scan, refuse foreign scopes and anonymous points, back up, apply.
    method RunApply(codec: Codec, order: seq<Key>, userId: string) returns (status: Status)
      requires (forall key <- order :: key in points) && NoRepeats(order)
      modifies this
      ensures ApplyEnd(codec, old(points), old(disk), order, userId, old(fuel)) == End(points, disk, status)
      ensures points.Keys == old(points).Keys
      ensures forall key <- points.Keys ::
        points[key] == old(points)[key] || (key in order && Filled(old(points)[key], points[key], userId))
      ensures status.Done? ==> forall key <- order :: Filled(old(points)[key], points[key], userId)
      ensures (exists key <- order :: Foreign(old(points)[key], userId) || Anonymous(old(points)[key])) ==>
        status.Raised? && points == old(points) && disk == old(disk)
    {
      ghost var was := points;
      AppliedFillsAll(was, order, userId);
      RefusedByPoints(was, order, userId);
      var rows, mismatched, missingSource := ScanTargets(points, order, userId);
      RefusalCounted(points, order, userId);
      if mismatched != 0 || missingSource != 0 { return Raised; }
      EveryRowCosts(points, order, userId);
      status := WriteBackup(codec, BackupRows(rows));
      if status.Done? { status := ApplyAll(rows, userId); }
    }

    method ApplyAll(rows: seq<Row>, userId: string) returns (status: Status)
      requires AllCost(rows, userId)
      modifies this`points, this`fuel
      ensures var k := Min(old(fuel), FirstUnderivable(rows));
        && points == Applied(old(points), rows, userId, k)
        && status == if k == |rows| then Done else if k == FirstUnderivable(rows) then Raised else Crashed
    {
      ghost var k;
      status, k := Apply(rows, userId);
      EffectsOfAll(rows, userId, k);
    }

    // The rollback action: load, then overwrite row by row, checking each payload's digest.
    method RunRollback(codec: Codec) returns (status: Status)
      modifies this`points, this`fuel
      ensures RollbackEnd(codec, old(points), disk, old(fuel)) == End(points, disk, status)
      ensures status.Crashed? ==> fuel == 0
      ensures (forall rows :: !Bound(codec, disk, rows)) ==> status.Raised? && points == old(points)
    {
      forall rows ensures LoadBackup(codec, disk) == Some(rows) <==> Bound(codec, disk, rows) {
        LoadBackupIff(codec, disk, rows);
      }
      match LoadBackup(codec, disk)
      case None => status := Raised;
      case Some(rows) => status := RestoreRows(rows);
    }

    method RestoreRows(rows: seq<BackupRow>) returns (status: Status)
      modifies this`points, this`fuel
      ensures var k := Min(old(fuel), SoundRows(rows));
        && points == Restored(old(points), rows, k)
        && status == if k == |rows| then Done else if k == SoundRows(rows) then Raised else Crashed
      ensures status.Crashed? ==> fuel == 0
    {
      for i := 0 to |rows|
        invariant i <= SoundRows(rows) && points == Restored(old(points), rows, i) && fuel == old(fuel) - i
      {
        if PayloadDigest(rows[i].payload) != rows[i].digest { return Raised; }
        var alive := Alive();
        if !alive { return Crashed; }
        points := OverwritePayload(points, rows[i].key, rows[i].payload);
      }
      status := Done;
    }
  }

  lemma AppliedFillsAll(points: Points, order: seq<Key>, userId: string)
    requires (forall key <- order :: key in points) && NoRepeats(order)
    ensures var rows := TargetRows(points, order);
      forall k: nat | k <= FirstUnderivable(rows) ::
        FilledSoFar(points, Applied(points, rows, userId, k), order, userId, k == |rows|)
  {
    var rows := TargetRows(points, order);
    forall k: nat | k <= FirstUnderivable(rows)
      ensures FilledSoFar(points, Applied(points, rows, userId, k), order, userId, k == |rows|)
    {
      AppliedDiffers(points, rows, userId, k);
      forall key <- points.Keys
        ensures var now := Applied(points, rows, userId, k)[key];
          && (now == points[key] || (key in order && Filled(points[key], now, userId)))
          && (k == |rows| && key in order ==> Filled(points[key], now, userId))
      {
        AppliedFills(points, order, userId, k, key);
      }
    }
  }

  ghost predicate FilledSoFar(was: Points, now: Points, order: seq<Key>, userId: string, done: bool) {
    && now.Keys == was.Keys
    && (forall key <- was.Keys ::
          && (now[key] == was[key] || (key in order && Filled(was[key], now[key], userId)))
          && (done && key in order ==> Filled(was[key], now[key], userId)))
  }

  lemma RefusedByPoints(points: Points, order: seq<Key>, userId: string)
    requires forall key <- order :: key in points
    ensures (exists key <- order :: RefusesApply(points[key], userId))
       <==> exists key <- order :: Foreign(points[key], userId) || Anonymous(points[key])
  {
    forall key <- order
      ensures RefusesApply(points[key], userId) <==> Foreign(points[key], userId) || Anonymous(points[key])
    {
      RefusesIff(points[key], userId);
    }
  }

  // The writes that the first k rows cost: one for each that fills something in.
  function Effects(rows: seq<Row>, userId: string, k: nat): nat
    requires k <= |rows|
  {
    if k == 0 then 0
    else Effects(rows, userId, k - 1) + if Patch(rows[k - 1], userId) != map[] then 1 else 0
  }

  ghost predicate AllCost(rows: seq<Row>, userId: string) {
    forall i | 0 <= i < |rows| :: Patch(rows[i], userId) != map[]
  }

  lemma PatchOfTarget(key: Key, p: Payload, userId: string)
    requires IsTarget(p)
    ensures Patch(RowOf(key, p), userId) != map[]
  {
    var patch := Patch(RowOf(key, p), userId);
    assert if LacksUser(p) then "user_id" in patch else "data" in patch;
  }

  lemma {:induction false} EveryRowCosts(points: Points, order: seq<Key>, userId: string)
    requires forall k <- order :: k in points
    ensures AllCost(TargetRows(points, order), userId)
  {
    if order != [] {
      var last := order[|order| - 1];
      EveryRowCosts(points, order[..|order| - 1], userId);
      assert last in order;
      if IsTarget(points[last]) { PatchOfTarget(last, points[last], userId); }
    }
  }

  lemma {:induction false} EffectsOfAll(rows: seq<Row>, userId: string, k: nat)
    requires AllCost(rows, userId) && k <= |rows|
    ensures Effects(rows, userId, k) == k
  {
    if k > 0 { EffectsOfAll(rows, userId, k - 1); }
  }

  lemma RefusalCounted(points: Points, order: seq<Key>, userId: string)
    requires forall key <- order :: key in points
    ensures (exists key <- order :: RefusesApply(points[key], userId))
       <==> !OneUser(points, order, userId) || !HaveSources(points, order)
  {
  }

  // ---------------------------------------------------------------- recovery

  // A saved row that no later one of the same point overrides.
  ghost predicate IsLastOf(saved: seq<BackupRow>, n: nat, i: nat)
    requires n <= |saved|
  {
    i < n && forall j | i < j < n :: saved[j].key != saved[i].key
  }

  // Putting the first n saved rows back changes nothing: each point they name has the payload its
  // last row holds.
  ghost predicate Harmless(points: Points, saved: seq<BackupRow>, n: nat)
    requires n <= |saved|
  {
    forall i: nat | IsLastOf(saved, n, i) :: saved[i].key in points ==> points[saved[i].key] == saved[i].payload
  }

  lemma {:induction false} RestoredLast(points: Points, saved: seq<BackupRow>, n: nat, i: nat)
    requires n <= |saved| && IsLastOf(saved, n, i)
    ensures saved[i].key in points ==>
      saved[i].key in Restored(points, saved, n) && Restored(points, saved, n)[saved[i].key] == saved[i].payload
  {
    RestoredKeys(points, saved, n - 1);
    if i < n - 1 {
      assert saved[n - 1].key != saved[i].key;
      RestoredLast(points, saved, n - 1, i);
    }
  }

  lemma {:induction false} RestoredElse(points: Points, saved: seq<BackupRow>, n: nat, key: Key)
    requires n <= |saved| && key in points && forall i | 0 <= i < n :: saved[i].key != key
    ensures key in Restored(points, saved, n) && Restored(points, saved, n)[key] == points[key]
  {
    if n > 0 { RestoredElse(points, saved, n - 1, key); }
  }

  lemma {:induction false} LastOf(saved: seq<BackupRow>, n: nat, key: Key) returns (i: nat)
    requires n <= |saved| && exists j :: 0 <= j < n && saved[j].key == key
    ensures IsLastOf(saved, n, i) && saved[i].key == key
  {
    if saved[n - 1].key == key { i := n - 1; } else { i := LastOf(saved, n - 1, key); }
  }

  // Putting saved rows back leaves a store alone exactly when it holds their payloads already.
  lemma RestoreChangesNothingIff(points: Points, saved: seq<BackupRow>, n: nat)
    requires n <= |saved|
    ensures Restored(points, saved, n) == points <==> Harmless(points, saved, n)
  {
    var back := Restored(points, saved, n);
    RestoredKeys(points, saved, n);
    if Harmless(points, saved, n) {
      forall key | key in points ensures back[key] == points[key] {
        if j :| 0 <= j < n && saved[j].key == key {
          var i := LastOf(saved, n, key);
          RestoredLast(points, saved, n, i);
        } else {
          RestoredElse(points, saved, n, key);
        }
      }
    }
    if back == points {
      forall i: nat | IsLastOf(saved, n, i) && saved[i].key in points ensures points[saved[i].key] == saved[i].payload {
        RestoredLast(points, saved, n, i);
      }
    }
  }

  // The directory holds no backup that a rollback would put over the store: nothing that loads, or
  // only payloads that the store has.
  ghost predicate SafeDirectory(codec: Codec, points: Points, disk: Disk) {
    match LoadBackup(codec, disk)
    case None => true
    case Some(saved) => Harmless(points, saved, SoundRows(saved))
  }

  lemma SoundBackup(rows: seq<Row>)
    requires forall i | 0 <= i < |rows| :: rows[i].digest == PayloadDigest(rows[i].payload)
    ensures SoundRows(BackupRows(rows)) == |rows|
  {
  }

  // The payload file of this run, under any manifest, loads as the rows of this run or not at all.
  lemma OwnPayloads(codec: Codec, rows: seq<BackupRow>, manifest: Option<Manifest>)
    requires Lawful(codec)
    ensures var loaded := LoadBackup(codec, Disk(Some(PayloadText(codec, rows)), manifest));
      loaded == None || loaded == Some(rows)
  {
    BackupRoundTrip(codec, rows);
    if Verifies(codec, rows) {
      ParseInvertsLines(codec, rows);
    } else {
      TornLinesDoNotParse(codec, rows);
    }
  }

  // Once an apply has written a file of its own, a rollback restores the store exactly.
  lemma OwnBackupRestores(codec: Codec, points: Points, disk: Disk, order: seq<Key>, userId: string, fuel: nat)
    requires Lawful(codec) && (forall key <- order :: key in points) && NoRepeats(order)
    requires fuel > 0 && !exists key <- order :: RefusesApply(points[key], userId)
    ensures var end := ApplyEnd(codec, points, disk, order, userId, fuel);
      RolledBack(codec, end.points, end.disk) == points
  {
    var rows := TargetRows(points, order);
    var end := ApplyEnd(codec, points, disk, order, userId, fuel);
    ScanIsSnapshot(points, order);
    SoundBackup(rows);
    OwnPayloads(codec, BackupRows(rows), disk.manifest);
    BackupRoundTrip(codec, BackupRows(rows));
    if fuel >= 2 && Verifies(codec, BackupRows(rows)) {
      AppliedDiffers(points, rows, userId, Min(fuel - 2, FirstUnderivable(rows)));
    }
    RestoreIsExact(end.points, points, rows);
  }

  // Exactly when the directory was safe to begin with, an apply that stops at any effect, or by
  // itself, is undone by the rollback that follows.
  lemma RecoveryIsExactIff(codec: Codec, points: Points, disk: Disk, order: seq<Key>, userId: string)
    requires Lawful(codec) && (forall key <- order :: key in points) && NoRepeats(order)
    ensures (forall fuel: nat ::
               var end := ApplyEnd(codec, points, disk, order, userId, fuel);
               RolledBack(codec, end.points, end.disk) == points)
       <==> SafeDirectory(codec, points, disk)
  {
    RolledBackIffSafe(codec, points, disk);
    var first := ApplyEnd(codec, points, disk, order, userId, 0);
    assert first.points == points && first.disk == disk;
    if SafeDirectory(codec, points, disk) {
      forall fuel: nat
        ensures var end := ApplyEnd(codec, points, disk, order, userId, fuel);
          RolledBack(codec, end.points, end.disk) == points
      {
        if fuel > 0 && !exists key <- order :: RefusesApply(points[key], userId) {
          OwnBackupRestores(codec, points, disk, order, userId, fuel);
        }
      }
    }
  }

  lemma RolledBackIffSafe(codec: Codec, points: Points, disk: Disk)
    ensures RolledBack(codec, points, disk) == points <==> SafeDirectory(codec, points, disk)
  {
    if LoadBackup(codec, disk).Some? {
      var saved := LoadBackup(codec, disk).value;
      RestoreChangesNothingIff(points, saved, SoundRows(saved));
    }
  }

  // Rolling back again after an interrupted rollback ends where a single one would have ended.
  lemma {:induction false} RestoredAgain(points: Points, saved: seq<BackupRow>, j: nat, n: nat)
    requires j <= n <= |saved|
    ensures Restored(Restored(points, saved, j), saved, n) == Restored(points, saved, n)
  {
    var once, twice := Restored(points, saved, n), Restored(Restored(points, saved, j), saved, n);
    RestoredKeys(points, saved, j);
    RestoredKeys(points, saved, n);
    RestoredKeys(Restored(points, saved, j), saved, n);
    forall key | key in points ensures once[key] == twice[key] {
      if i :| 0 <= i < n && saved[i].key == key {
        var last := LastOf(saved, n, key);
        RestoredLast(points, saved, n, last);
        RestoredLast(Restored(points, saved, j), saved, n, last);
      } else {
        RestoredElse(points, saved, n, key);
        RestoredElse(points, saved, j, key);
        RestoredElse(Restored(points, saved, j), saved, n, key);
      }
    }
  }

  // End to end.  An apply stopped at any effect, by an underivable value or by itself, then any number
  // of interrupted rollbacks and one with enough effects, leave every payload of the store exactly as
  // it was, whenever the directory was safe to begin with.
  method ApplyStopAndRecover(session: Session, codec: Codec, order: seq<Key>, userId: string, crashes: seq<nat>)
    requires Lawful(codec)
    requires (forall key <- order :: key in session.points) && NoRepeats(order)
    requires SafeDirectory(codec, session.points, session.disk)
    modifies session
    ensures session.points == old(session.points)
  {
    ghost var was := session.points;
    RecoveryIsExactIff(codec, session.points, session.disk, order, userId);
    var status := session.RunApply(codec, order, userId);
    for i := 0 to |crashes|
      invariant RolledBack(codec, session.points, session.disk) == was
    {
      session.fuel := crashes[i];
      status := RollBackOnce(session, codec);
    }
    session.fuel := match LoadBackup(codec, session.disk) case Some(saved) => |saved| case None => 0;
    status := RollBackOnce(session, codec);
    assert !status.Crashed?;
  }

  // A rollback with any number of effects leaves a later one where it would have been; one with an
  // effect for each row gets there.
  method RollBackOnce(session: Session, codec: Codec) returns (status: Status)
    modifies session`points, session`fuel
    ensures RolledBack(codec, session.points, session.disk) == RolledBack(codec, old(session.points), session.disk)
    ensures status.Crashed? ==> session.fuel == 0
    ensures status.Crashed? || session.points == RolledBack(codec, old(session.points), session.disk)
    ensures LoadBackup(codec, session.disk) == None || old(session.fuel) >= |LoadBackup(codec, session.disk).value| ==>
      !status.Crashed?
  {
    ghost var before, fuel := session.points, session.fuel;
    status := session.RunRollback(codec);
    match LoadBackup(codec, session.disk)
    case None =>
    case Some(saved) => RestoredAgain(before, saved, Min(fuel, SoundRows(saved)), SoundRows(saved));
  }

  lemma OneRowLoads(codec: Codec, row: BackupRow)
    requires Lawful(codec) && OneLine(codec.encode(row))
    ensures LoadBackup(codec, Written(codec, [row])) == Some([row])
  {
    BackupRoundTrip(codec, [row]);
  }

  lemma OneRowBack(row: BackupRow, now: Payload)
    requires row.digest == PayloadDigest(row.payload)
    ensures SoundRows([row]) == 1 && Restored(map[row.key := now], [row], 1) == map[row.key := row.payload]
  {
    assert [row][..0] == [];
    assert Restored(map[row.key := now], [row], 0) == map[row.key := now];
  }

  // A directory with one older row: an apply without effects changes nothing, and a rollback puts the row
  // back.
  lemma StaleEnds(codec: Codec, row: BackupRow, now: Payload, order: seq<Key>, userId: string)
    requires Lawful(codec) && OneLine(codec.encode(row)) && row.digest == PayloadDigest(row.payload)
    requires row.payload != now && forall key <- order :: key == row.key
    ensures var points, disk := map[row.key := now], Written(codec, [row]);
      && ApplyEnd(codec, points, disk, order, userId, 0).points == points
      && ApplyEnd(codec, points, disk, order, userId, 0).disk == disk
      && RollbackEnd(codec, points, disk, 1).points == map[row.key := row.payload] != points
      && !SafeDirectory(codec, points, disk)
  {
    OneRowLoads(codec, row);
    OneRowBack(row, now);
    assert map[row.key := row.payload][row.key] != map[row.key := now][row.key];
    RolledBackIffSafe(codec, map[row.key := now], Written(codec, [row]));
  }

  // The directory matters: with an older backup in it, an apply that dies before its first effect is
  // not undone by the rollback; it puts the old payload back over the new one.
  method StaleBackupRun(codec: Codec, row: BackupRow, now: Payload, order: seq<Key>, userId: string)
    returns (session: Session)
    requires Lawful(codec) && OneLine(codec.encode(row)) && row.digest == PayloadDigest(row.payload)
    requires row.payload != now && NoRepeats(order) && forall key <- order :: key == row.key
    ensures session.points == map[row.key := row.payload] != map[row.key := now]
    ensures !SafeDirectory(codec, map[row.key := now], session.disk)
  {
    StaleEnds(codec, row, now, order, userId);
    session := new Session(map[row.key := now], Written(codec, [row]), 0);
    ApplyAndRollBack(session, codec, order, userId, 1);
  }

  // An apply, and then a rollback with so many effects.
  method ApplyAndRollBack(session: Session, codec: Codec, order: seq<Key>, userId: string, fuel: nat)
    requires (forall key <- order :: key in session.points) && NoRepeats(order)
    modifies session
    ensures var end := ApplyEnd(codec, old(session.points), old(session.disk), order, userId, old(session.fuel));
      session.disk == end.disk && session.points == RollbackEnd(codec, end.points, end.disk, fuel).points
  {
    var first := session.RunApply(codec, order, userId);
    session.fuel := fuel;
    var second := session.RunRollback(codec);
  }
}
