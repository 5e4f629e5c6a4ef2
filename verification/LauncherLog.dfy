/** The launcher's rotating log (scripts/bhm_launcher_transport.py:16-45): one current file, numbered
    backups, and any of its file operations may fail.  Texts stand for bytes, one character each. */
module LauncherLog {
  import opened Text
  import opened Payloads

  const MaxBytes: nat := 2 * 1024 * 1024
  const Backups: nat := 3

  // The files by number: 0 is the current one, i > 0 the backup with suffix i.
  type Log = map<nat, string>

  function Part(log: Log, i: nat): string { if i in log then log[i] else "" }

  // The n-th file and all newer ones, oldest first.
  function Contents(log: Log, n: nat): string {
    Part(log, n) + if n == 0 then "" else Contents(log, n - 1)
  }

  // Renaming a file to the next number, over whatever is there.
  function MoveUp(log: Log, i: nat): Log {
    if i in log then (log - {i})[i + 1 := log[i]] else log
  }

  // After the stale file is gone and the first moves, from the oldest down, are made.
  function Rotated(log: Log, moves: nat): Log
    requires moves <= Backups
  {
    if moves == 0 then log - {Backups + 1} else MoveUp(Rotated(log, moves - 1), Backups - moves)
  }

  /** How the file operations of one append go: whether the folder and the size are available, how many
      moves of a rotation succeed (none when already the unlink fails), and how many bytes the append
      writes (none when the file cannot be opened). */
  datatype Io = Io(folderOk: bool, sizeOk: bool, moves: Option<nat>, bytes: Option<nat>)

  function AfterRotation(log: Log, moves: Option<nat>): Log {
    match moves case None => log case Some(m) => Rotated(log, Min(m, Backups))
  }

  predicate Rotates(log: Log, payload: string, io: Io) {
    io.sizeOk && |Part(log, 0)| + |payload| > MaxBytes
  }

  // What of a line reaches the file.
  function Reached(payload: string, io: Io): string {
    if io.folderOk && io.bytes.Some? then payload[..Min(io.bytes.value, |payload|)] else ""
  }

  function AfterAppend(log: Log, payload: string, io: Io): Log {
    if !io.folderOk then log
    else
      var ready := if Rotates(log, payload, io) then AfterRotation(log, io.moves) else log;
      if io.bytes.Some? then ready[0 := Part(ready, 0) + Reached(payload, io)] else ready
  }

  class UnifiedLog {
    var files: Log

    // _rotate_launcher_log
    method Rotate(moves: Option<nat>)
      modifies this
      ensures files == AfterRotation(old(files), moves)
    {
      if moves == None { return; }
      files := files - {Backups + 1};
      var left: nat := moves.value;
      for index := Backups - 1 downto 0
        invariant left <= moves.value && moves.value - left == Backups - 1 - index
        invariant files == Rotated(old(files), Backups - 1 - index)
      {
        if left == 0 { return; }
        left := left - 1;
        if index + 1 in files { files := (files - {index + 1})[index + 2 := files[index + 1]]; }
      }
      assert files == Rotated(old(files), Backups - 1);
      if left == 0 {
        assert Min(moves.value, Backups) == Backups - 1;
        return;
      }
      assert Min(moves.value, Backups) == Backups;
      if 0 in files { files := (files - {0})[1 := files[0]]; }
    }

    // append_launcher_log
    method Append(payload: string, io: Io)
      modifies this
      ensures files == AfterAppend(old(files), payload, io)
    {
      if !io.folderOk { return; }
      if io.sizeOk {
        var size := if 0 in files then |files[0]| else 0;
        if size + |payload| > MaxBytes { Rotate(io.moves); }
      }
      if io.bytes.Some? {
        files := files[0 := Part(files, 0) + payload[..Min(io.bytes.value, |payload|)]];
      }
    }
  }

  // ---------------------------------------------------------------- one rotation

  lemma {:induction false} ContentsAgree(a: Log, b: Log, n: nat)
    requires forall i | 0 <= i <= n :: Part(a, i) == Part(b, i)
    ensures Contents(a, n) == Contents(b, n)
  {
    if n > 0 { ContentsAgree(a, b, n - 1); }
  }

  // Moving a file into a gap changes no contents.
  lemma {:induction false} MoveIntoGap(log: Log, i: nat, n: nat)
    requires i < n && i + 1 !in log
    ensures Contents(MoveUp(log, i), n) == Contents(log, n)
  {
    var moved := MoveUp(log, i);
    if n == i + 1 {
      var rest := if i == 0 then "" else Contents(log, i - 1);
      if i > 0 { ContentsAgree(moved, log, i - 1); }
      NothingBefore(Part(log, i) + rest);
      NothingBefore(rest);
      assert Contents(log, i) == Part(log, i) + rest && Contents(moved, i) == Part(moved, i) + rest;
    } else {
      MoveIntoGap(log, i, n - 1);
    }
  }

  lemma NothingBefore(text: string)
    ensures "" + text == text
  {
  }

  // The moves made so far leave a gap where the last one started, and lose at most the oldest backup:
  // exactly when the next one was there to replace it.
  lemma {:induction false} RotatedContents(log: Log, moves: nat)
    requires moves <= Backups
    ensures moves > 0 ==> Backups - moves !in Rotated(log, moves)
    ensures forall i | 0 <= i < Backups - moves :: Part(Rotated(log, moves), i) == Part(log, i)
    ensures Contents(Rotated(log, moves), Backups)
         == Contents(log, if moves > 0 && Backups - 1 in log then Backups - 1 else Backups)
  {
    if moves == 0 {
      ContentsAgree(Rotated(log, 0), log, Backups);
    } else {
      RotatedContents(log, moves - 1);
      var before := Rotated(log, moves - 1);
      if moves == 1 {
        FirstMove(before, log);
      } else {
        MoveIntoGap(before, Backups - moves, Backups);
      }
    }
  }

  lemma FirstMove(before: Log, log: Log)
    requires before == log - {Backups + 1}
    ensures Contents(MoveUp(before, Backups - 1), Backups)
         == Contents(log, if Backups - 1 in log then Backups - 1 else Backups)
  {
    var moved := MoveUp(before, Backups - 1);
    ContentsAgree(moved, log, Backups - 2);
    var rest := Contents(log, Backups - 2);
    assert Contents(moved, Backups - 1) == Part(moved, Backups - 1) + rest;
    assert Contents(log, Backups - 1) == Part(log, Backups - 1) + rest;
    NothingBefore(rest);
  }

  // ---------------------------------------------------------------- runs

  datatype Line = Line(payload: string, io: Io)

  function After(log: Log, lines: seq<Line>): Log {
    if lines == [] then log
    else AfterAppend(After(log, lines[..|lines| - 1]), lines[|lines| - 1].payload, lines[|lines| - 1].io)
  }

  // Everything that reached the files.
  function Written(lines: seq<Line>): string {
    if lines == [] then ""
    else Written(lines[..|lines| - 1]) + Reached(lines[|lines| - 1].payload, lines[|lines| - 1].io)
  }

  predicate IsSuffix(part: string, whole: string) {
    |part| <= |whole| && whole[|whole| - |part|..] == part
  }

  // A suffix of a suffix stays one when both grow by the same text.
  lemma SuffixStep(a: string, b: string, whole: string, more: string)
    requires IsSuffix(a, b) && IsSuffix(b, whole)
    ensures IsSuffix(a + more, whole + more)
  {
    assert whole[|whole| - |b|..][|b| - |a|..] == whole[|whole| - |a|..];
    assert (whole + more)[|whole| - |a|..] == whole[|whole| - |a|..] + more;
  }

  lemma KeptIsSuffix(log: Log, dropped: bool)
    ensures IsSuffix(Contents(log, if dropped then Backups - 1 else Backups), Contents(log, Backups))
  {
  }

  // The backups an append loses.
  predicate Drops(log: Log, payload: string, io: Io) {
    && io.folderOk && Rotates(log, payload, io)
    && io.moves.Some? && io.moves.value > 0 && Backups - 1 in log
  }

  lemma SetCurrent(log: Log, text: string)
    ensures Contents(log[0 := Part(log, 0) + text], Backups) == Contents(log, Backups) + text
  {
    CurrentAtEnd(log, text, Backups);
  }

  lemma {:induction false} CurrentAtEnd(log: Log, text: string, n: nat)
    ensures Contents(log[0 := Part(log, 0) + text], n) == Contents(log, n) + text
  {
    if n > 0 { CurrentAtEnd(log, text, n - 1); }
  }

  // One append, whatever fails: the old contents, less the oldest backup when it is replaced, then
  // what reached the file.
  lemma AppendContents(log: Log, payload: string, io: Io)
    ensures Contents(AfterAppend(log, payload, io), Backups)
         == Contents(log, if Drops(log, payload, io) then Backups - 1 else Backups) + Reached(payload, io)
  {
    if io.folderOk {
      var ready := if Rotates(log, payload, io) then AfterRotation(log, io.moves) else log;
      if Rotates(log, payload, io) && io.moves.Some? { RotatedContents(log, Min(io.moves.value, Backups)); }
      if io.bytes.Some? { SetCurrent(ready, Reached(payload, io)); }
    }
  }

  // Over every run, with any failures at any step and from any files: what the log holds is a suffix
  // of what it held and everything that reached it since.
  lemma {:induction false} LogIsSuffix(log: Log, lines: seq<Line>)
    ensures IsSuffix(Contents(After(log, lines), Backups), Contents(log, Backups) + Written(lines))
  {
    if lines == [] {
      assert Contents(log, Backups) + Written(lines) == Contents(log, Backups);
    } else {
      var init, last := lines[..|lines| - 1], lines[|lines| - 1];
      LogIsSuffix(log, init);
      var before, reached := After(log, init), Reached(last.payload, last.io);
      var dropped := Drops(before, last.payload, last.io);
      AppendContents(before, last.payload, last.io);
      KeptIsSuffix(before, dropped);
      SuffixStep(Contents(before, if dropped then Backups - 1 else Backups), Contents(before, Backups),
                 Contents(log, Backups) + Written(init), reached);
      ConcatAssociates(Contents(log, Backups), Written(init), reached);
    }
  }

  lemma ConcatAssociates(a: string, b: string, c: string)
    ensures (a + b) + c == a + (b + c)
  {
  }

  // ---------------------------------------------------------------- runs without errors

  predicate Clean(line: Line) {
    var io := line.io;
    io.folderOk && io.sizeOk && io.moves == Some(Backups) && io.bytes.Some? && io.bytes.value >= |line.payload|
  }

  predicate AllClean(lines: seq<Line>) { forall line <- lines :: Clean(line) }

  // The files are numbered without gaps from the current one.
  ghost predicate Numbered(log: Log, count: nat) {
    count <= Backups + 1 && forall i: nat :: i in log <==> i < count
  }

  ghost predicate Gapless(log: Log) { exists count: nat :: Numbered(log, count) }

  // A file that is longer than the limit is one line.
  predicate Bounded(log: Log, lines: seq<Line>) {
    forall i <- log.Keys :: |log[i]| <= MaxBytes || exists line <- lines :: log[i] == line.payload
  }

  // Two neighbours together are over the limit: no file is closed early.
  ghost predicate Packed(log: Log) {
    forall i, j: nat | i in log && j in log && j == i + 1 :: |log[j]| + |log[i]| > MaxBytes
  }

  // Nothing was lost, or every backup is in use.
  predicate Retains(log: Log, written: string) {
    Contents(log, Backups) == written || Backups in log
  }

  lemma CleanAppend(log: Log, line: Line)
    requires Clean(line)
    ensures AfterAppend(log, line.payload, line.io)
         == if |Part(log, 0)| + |line.payload| > MaxBytes then Rotated(log, Backups)[0 := line.payload]
            else log[0 := Part(log, 0) + line.payload]
  {
    assert Reached(line.payload, line.io) == line.payload;
    assert AfterRotation(log, line.io.moves) == Rotated(log, Backups);
    RotatedContents(log, Backups);
    assert "" + line.payload == line.payload;
  }

  // A whole rotation of files without gaps moves each up by one and drops the oldest backup.
  lemma RotatedFiles(log: Log, count: nat, i: nat)
    requires Numbered(log, count)
    ensures i in Rotated(log, Backups) <==> 0 < i <= Backups && i - 1 in log
    ensures i in Rotated(log, Backups) ==> Rotated(log, Backups)[i] == log[i - 1]
  {
    assert Rotated(log, 0) == log - {Backups + 1};
    assert Rotated(log, 1) == MoveUp(Rotated(log, 0), 2);
    assert Rotated(log, 2) == MoveUp(Rotated(log, 1), 1);
  }

  ghost predicate InOrder(log: Log, lines: seq<Line>) {
    Gapless(log) && Bounded(log, lines) && Packed(log) && Retains(log, Written(lines))
  }

  lemma BoundedMore(log: Log, lines: seq<Line>, line: Line)
    requires Bounded(log, lines)
    ensures Bounded(log, lines + [line])
  {
    assert forall l <- lines :: l in lines + [line];
  }

  lemma GrownInOrder(log: Log, lines: seq<Line>, line: Line)
    requires Gapless(log) && Bounded(log, lines) && Packed(log) && |Part(log, 0)| + |line.payload| <= MaxBytes
    ensures var after := log[0 := Part(log, 0) + line.payload];
      Gapless(after) && Bounded(after, lines + [line]) && Packed(after)
  {
    var after := log[0 := Part(log, 0) + line.payload];
    var count: nat :| Numbered(log, count);
    assert Numbered(after, if count == 0 then 1 else count);
    BoundedMore(log, lines, line);
  }

  lemma RotatedInOrder(log: Log, lines: seq<Line>, line: Line)
    requires Gapless(log) && Bounded(log, lines) && Packed(log) && |Part(log, 0)| + |line.payload| > MaxBytes
    ensures var after := Rotated(log, Backups)[0 := line.payload];
      Gapless(after) && Bounded(after, lines + [line]) && Packed(after)
      && (Backups - 1 in log <==> Backups in after) && (Backups in log ==> Backups - 1 in log)
  {
    var count: nat :| Numbered(log, count);
    forall i: nat
      ensures i in Rotated(log, Backups) <==> 0 < i <= Backups && i - 1 in log
      ensures i in Rotated(log, Backups) ==> Rotated(log, Backups)[i] == log[i - 1]
    {
      RotatedFiles(log, count, i);
    }
    var after := Rotated(log, Backups)[0 := line.payload];
    assert Numbered(after, if count <= Backups then count + 1 else count);
    BoundedMore(log, lines, line);
    assert line in lines + [line];
  }

  // Without errors, starting from no files: numbering has no gaps, each file is within the limit or
  // is one oversized line, and no two neighbouring files would have fitted into one.
  lemma {:induction false} CleanRunInOrder(lines: seq<Line>)
    requires AllClean(lines)
    ensures InOrder(After(map[], lines), lines)
  {
    if lines == [] {
      assert Numbered(map[], 0);
      assert Contents(map[], Backups) == "" by { NoContents(Backups); }
    } else {
      var init, last := lines[..|lines| - 1], lines[|lines| - 1];
      assert lines == init + [last] && last in lines && forall l <- init :: l in lines;
      CleanRunInOrder(init);
      var before := After(map[], init);
      CleanAppend(before, last);
      AppendContents(before, last.payload, last.io);
      if |Part(before, 0)| + |last.payload| > MaxBytes {
        RotatedInOrder(before, init, last);
      } else {
        GrownInOrder(before, init, last);
      }
    }
  }

  lemma {:induction false} NoContents(n: nat)
    ensures Contents(map[], n) == ""
  {
    if n > 0 { NoContents(n - 1); }
  }

  // So the log holds everything, or the newest part of it that is more than twice the limit.
  lemma CleanRunRetains(lines: seq<Line>)
    requires AllClean(lines)
    ensures var kept := Contents(After(map[], lines), Backups);
      IsSuffix(kept, Written(lines)) && (kept == Written(lines) || |kept| > 2 * MaxBytes)
  {
    var log := After(map[], lines);
    CleanRunInOrder(lines);
    LogIsSuffix(map[], lines);
    NoContents(Backups);
    assert Contents(map[], Backups) + Written(lines) == Written(lines);
    if Backups in log {
      var count: nat :| Numbered(log, count);
      assert 0 in log && 1 in log && 2 in log && 3 in log;
      FourParts(log);
    }
  }

  lemma FourParts(log: Log)
    requires Packed(log) && 0 in log && 1 in log && 2 in log && 3 in log
    ensures |Contents(log, 3)| > 2 * MaxBytes
  {
    assert |Part(log, 3)| + |Part(log, 2)| > MaxBytes && |Part(log, 1)| + |Part(log, 0)| > MaxBytes;
    assert |Contents(log, 1)| == |Part(log, 1)| + |Part(log, 0)|;
    assert |Contents(log, 2)| == |Part(log, 2)| + |Contents(log, 1)|;
  }
}
