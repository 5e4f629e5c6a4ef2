/** The observation journal (src/blackholememory/observation_store.py:209-259, 305-323, 509-578 and
    src/blackholememory/observation_store_base.py:74-93): rows under ids scoped by project, what is read
    back from them, and the call that archives rows by their public ids. */
module Journal {
  import opened Text
  import opened Seqs
  import opened Payloads
  import opened Harvest

  datatype Life = ActiveRow | ArchivedRow | PurgedRow

  /** A row of the journal with its lifecycle. */
  datatype Row = Row(item: Item, life: Life)

  // The project column: the raw text, with a default only where there is none.
  function Column(item: Item): string {
    match item.project case None => DefaultProject case Some(s) => s
  }

  // The public event id; the store takes no row without one.
  function EventName(item: Item): string { Strip(item.eventId) }

  function EventNameOf(row: Row): string { EventName(row.item) }

  predicate Named(rows: seq<Row>) {
    forall row <- rows :: row.item.kind == ObservationItem && EventNameOf(row) != ""
  }

  const IdSeparator: char := '\U{1f}'

  // The id a row is stored under.
  function StorageId(row: Row): string { Column(row.item) + ([IdSeparator] + EventNameOf(row)) }

  // What is read back: a row that is not active shows its lifecycle as its status.
  function Materialize(row: Row): Item {
    match row.life
    case ActiveRow => row.item
    case ArchivedRow => row.item.(status := "archived")
    case PurgedRow => row.item.(status := "purged")
  }

  function Loaded(rows: seq<Row>): seq<Item> {
    if rows == [] then []
    else
      var rest, last := Loaded(rows[..|rows| - 1]), rows[|rows| - 1];
      if last.life == PurgedRow then rest else rest + [Materialize(last)]
  }

  lemma {:induction false} ActiveRowsAreLoaded(rows: seq<Row>, row: Row)
    requires row in rows && row.life == ActiveRow
    ensures row.item in Loaded(rows)
  {
    var init, last := rows[..|rows| - 1], rows[|rows| - 1];
    assert rows == init + [last];
    if row in init { ActiveRowsAreLoaded(init, row); }
  }

  // An active item that is read back is that of an active row.
  lemma {:induction false} LoadedRow(rows: seq<Row>, x: Item) returns (i: nat)
    requires x in Loaded(rows) && IsActive(x)
    ensures i < |rows| && rows[i] == Row(x, ActiveRow)
  {
    var init, last := rows[..|rows| - 1], rows[|rows| - 1];
    if x in Loaded(init) { i := LoadedRow(init, x); } else { i := |rows| - 1; }
  }

  // ---------------------------------------------------------------- finding a row by its public id

  function Fold(c: char): char { if 'A' <= c <= 'Z' then (c as int + 32) as char else c }

  // SQL LIKE: `%` stands for any text, `_` for any character, and letters match in both cases.
  predicate Like(pattern: string, text: string)
    decreases |pattern| + |text|
  {
    if pattern == "" then text == ""
    else if pattern[0] == '%' then Like(pattern[1..], text) || (text != "" && Like(pattern, text[1..]))
    else text != "" && (pattern[0] == '_' || Fold(pattern[0]) == Fold(text[0])) && Like(pattern[1..], text[1..])
  }

  // A row is found by its whole id, or by a pattern for the part behind the project.
  predicate Finds(id: string, row: Row) {
    StorageId(row) == id || Like("%" + ([IdSeparator] + id), StorageId(row))
  }

  lemma {:induction false} LikeItself(text: string)
    ensures Like(text, text)
  {
    if text != "" { LikeItself(text[1..]); }
  }

  lemma {:induction false} LikeBehind(front: string, pattern: string)
    ensures Like("%" + pattern, front + pattern)
    decreases |front|
  {
    var p, t := "%" + pattern, front + pattern;
    assert p[1..] == pattern;
    if front == "" {
      assert t == pattern;
      LikeItself(pattern);
    } else {
      LikeBehind(front[1..], pattern);
      assert t[1..] == front[1..] + pattern;
    }
  }

  lemma {:induction false} LikeJoin(front: string, back: string, a: string, b: string)
    requires Like(front, a) && Like(back, b)
    ensures Like(front + back, a + b)
    decreases |front| + |a|
  {
    if front == "" {
      assert front + back == back && a + b == b;
    } else {
      assert (front + back)[1..] == front[1..] + back;
      if front[0] == '%' && Like(front[1..], a) {
        LikeJoin(front[1..], back, a, b);
      } else {
        assert (a + b)[1..] == a[1..] + b;
        if front[0] == '%' { LikeJoin(front, back, a[1..], b); } else { LikeJoin(front[1..], back, a[1..], b); }
      }
    }
  }

  lemma {:induction false} LikeSplit(front: string, back: string, text: string) returns (k: nat)
    requires Like(front + back, text)
    ensures k <= |text| && Like(front, text[..k]) && Like(back, text[k..])
    decreases |front| + |text|
  {
    if front == "" {
      assert front + back == back && text[..0] == "" && text[0..] == text;
      k := 0;
    } else {
      assert (front + back)[1..] == front[1..] + back;
      if front[0] == '%' && Like(front[1..] + back, text) {
        k := LikeSplit(front[1..], back, text);
      } else {
        k := LikeSplit(if front[0] == '%' then front else front[1..], back, text[1..]);
        assert text[..k + 1][1..] == text[1..][..k] && text[k + 1..] == text[1..][k..];
        k := k + 1;
      }
    }
  }

  // What a pattern of two parts stands for is what the parts stand for, one behind the other.
  lemma LikeParts(front: string, back: string, text: string)
    ensures Like(front + back, text) <==> exists k | 0 <= k <= |text| :: Like(front, text[..k]) && Like(back, text[k..])
  {
    if Like(front + back, text) { var k := LikeSplit(front, back, text); }
    if k :| 0 <= k <= |text| && Like(front, text[..k]) && Like(back, text[k..]) {
      LikeJoin(front, back, text[..k], text[k..]);
      assert text[..k] + text[k..] == text;
    }
  }

  // And a part of one character stands for any text, any character, or the character in either case.
  lemma {:induction false} LikeOne(c: char, text: string)
    ensures Like([c], text) <==> c == '%' || (|text| == 1 && (c == '_' || text[0] == c || SwappedCase(text[0], c)))
    ensures Like("", text) <==> text == ""
    decreases |text|
  {
    assert [c][1..] == "";
    if text != "" { LikeOne(c, text[1..]); }
  }

  ghost predicate SwappedCase(a: char, b: char) {
    ('A' <= a <= 'Z' && b as int == a as int + 32) || ('A' <= b <= 'Z' && a as int == b as int + 32)
  }

  // A row's own public id finds it.
  lemma FindsOwn(row: Row)
    ensures Finds(EventNameOf(row), row)
  {
    LikeBehind(Column(row.item), [IdSeparator] + EventNameOf(row));
  }

  // A pattern that ends in a plain letter finds only ids that end in that letter.
  lemma {:induction false} LikeLastLetter(pattern: string, text: string)
    requires pattern != "" && pattern[|pattern| - 1] != '%' && pattern[|pattern| - 1] != '_' && Like(pattern, text)
    ensures text != "" && Fold(text[|text| - 1]) == Fold(pattern[|pattern| - 1])
    decreases |pattern| + |text|
  {
    if pattern[0] == '%' {
      if Like(pattern[1..], text) { LikeLastLetter(pattern[1..], text); } else { LikeLastLetter(pattern, text[1..]); }
    } else if |pattern| > 1 {
      LikeLastLetter(pattern[1..], text[1..]);
    } else {
      assert pattern[1..] == "" && text[1..] == "";
    }
  }

  predicate IsPlain(text: string) { '%' !in text && '_' !in text && IdSeparator !in text }

  // The same letters, whatever their case.
  predicate SameLetters(a: string, b: string) {
    |a| == |b| && forall k | 0 <= k < |a| :: Fold(a[k]) == Fold(b[k])
  }

  lemma {:induction false} LikeLetters(pattern: string, text: string)
    requires '%' !in pattern && '_' !in pattern && Like(pattern, text)
    ensures SameLetters(pattern, text)
  {
    if pattern != "" {
      assert pattern == [pattern[0]] + pattern[1..];
      LikeLetters(pattern[1..], text[1..]);
    }
  }

  lemma {:induction false} LikeTail(pattern: string, text: string)
    requires '%' !in pattern && '_' !in pattern && Like("%" + pattern, text)
    ensures |text| >= |pattern| && SameLetters(pattern, text[|text| - |pattern|..])
    decreases |text|
  {
    var whole := "%" + pattern;
    assert whole[1..] == pattern;
    if Like(pattern, text) {
      LikeLetters(pattern, text);
      assert text[|text| - |pattern|..] == text;
    } else {
      LikeTail(pattern, text[1..]);
      assert text[1..][|text| - 1 - |pattern|..] == text[|text| - |pattern|..];
    }
  }

  // The tail that starts with the separator is the one behind the project.
  lemma TailIsName(front: string, name: string, id: string)
    requires IdSeparator !in front && IdSeparator !in name
    requires var text := front + ([IdSeparator] + name);
      |text| >= 1 + |id| && SameLetters([IdSeparator] + id, text[|text| - 1 - |id|..])
    ensures SameLetters(id, name)
  {
    var text := front + ([IdSeparator] + name);
    var cut := |text| - 1 - |id|;
    assert text[cut..][0] == text[cut] && Fold(text[cut]) == IdSeparator;
    forall k | 0 <= k < |text| && k != |front| ensures Fold(text[k]) != IdSeparator { SeparatedAt(front, name, k); }
    assert cut == |front| && text[cut + 1..] == name;
    forall k | 0 <= k < |id| ensures Fold(id[k]) == Fold(name[k]) {
      assert ([IdSeparator] + id)[k + 1] == id[k] && text[cut..][k + 1] == name[k];
    }
  }

  lemma SeparatedAt(front: string, name: string, k: nat)
    requires IdSeparator !in front && IdSeparator !in name && k != |front| && k < |front| + 1 + |name|
    ensures Fold((front + ([IdSeparator] + name))[k]) != IdSeparator
  {
    var c := (front + ([IdSeparator] + name))[k];
    assert c in front || c in name;
  }

  lemma {:induction false} LettersLike(pattern: string, text: string)
    requires '%' !in pattern && SameLetters(pattern, text)
    ensures Like(pattern, text)
  {
    if pattern != "" {
      assert pattern == [pattern[0]] + pattern[1..];
      LettersLike(pattern[1..], text[1..]);
    }
  }

  lemma FindsLetters(id: string, row: Row)
    requires '%' !in id && SameLetters(id, EventNameOf(row))
    ensures Finds(id, row)
  {
    var own := [IdSeparator] + EventNameOf(row);
    assert forall c <- [IdSeparator] + id :: c == IdSeparator || c in id;
    LettersLike([IdSeparator] + id, own);
    LikeOne('%', Column(row.item));
    LikeJoin("%", [IdSeparator] + id, Column(row.item), own);
  }

  // An id without wildcards finds exactly the rows whose public id has the same letters.
  lemma FindsPlain(id: string, row: Row)
    requires IsPlain(id) && IsPlain(EventNameOf(row)) && IdSeparator !in Column(row.item)
    ensures Finds(id, row) <==> SameLetters(id, EventNameOf(row))
  {
    if SameLetters(id, EventNameOf(row)) { FindsLetters(id, row); }
    var text := StorageId(row);
    assert text[|Column(row.item)|] == IdSeparator && IdSeparator in text;
    if Like("%" + ([IdSeparator] + id), text) {
      LikeTail([IdSeparator] + id, text);
      TailIsName(Column(row.item), EventNameOf(row), id);
    }
  }

  // ---------------------------------------------------------------- archiving

  // The ids of a call, stripped; blank ones are dropped.
  function Wanted(ids: set<string>): set<string> { set id <- ids | Strip(id) != "" :: Strip(id) }

  function Hits(rows: seq<Row>, id: string): seq<Row> { Filter(rows, row => Finds(id, row)) }

  // An id that finds two rows makes the store refuse the whole call.
  predicate Ambiguous(rows: seq<Row>, ids: set<string>) { exists id <- Wanted(ids) :: |Hits(rows, id)| > 1 }

  predicate Found(row: Row, wanted: set<string>) { exists id <- wanted :: Finds(id, row) }

  function Archived(rows: seq<Row>, wanted: set<string>): seq<Row> {
    if rows == [] then []
    else
      var rest, last := Archived(rows[..|rows| - 1], wanted), rows[|rows| - 1];
      rest + [if Found(last, wanted) then last.(life := ArchivedRow) else last]
  }

  lemma {:induction false} ArchivedAt(rows: seq<Row>, wanted: set<string>)
    ensures |Archived(rows, wanted)| == |rows|
    ensures forall i | 0 <= i < |rows| ::
      Archived(rows, wanted)[i] == (if Found(rows[i], wanted) then rows[i].(life := ArchivedRow) else rows[i])
  {
    if rows != [] { ArchivedAt(rows[..|rows| - 1], wanted); }
  }

  lemma {:induction false} ArchivedMore(rows: seq<Row>, done: set<string>, id: string)
    ensures Archived(Archived(rows, done), {id}) == Archived(rows, done + {id})
  {
    if rows != [] {
      var init, last := rows[..|rows| - 1], rows[|rows| - 1];
      ArchivedMore(init, done, id);
      var mid := Archived(rows, done);
      assert mid[..|mid| - 1] == Archived(init, done);
      SameRow(last, mid[|mid| - 1], done, id);
    }
  }

  lemma SameRow(row: Row, now: Row, done: set<string>, id: string)
    requires now.item == row.item
    ensures Found(now, {id}) <==> Finds(id, row)
    ensures Found(row, done + {id}) <==> Found(row, done) || Finds(id, row)
  {
    assert forall other :: Finds(other, now) <==> Finds(other, row);
    assert id in {id} && id in done + {id};
  }

  // The same rows, in the same order, whatever their lifecycles.
  lemma {:induction false} SameHits(rows: seq<Row>, done: set<string>, id: string)
    ensures |Hits(Archived(rows, done), id)| == |Hits(rows, id)|
  {
    if rows != [] {
      var init, last := rows[..|rows| - 1], rows[|rows| - 1];
      SameHits(init, done, id);
      var after := Archived(rows, done);
      assert after[..|after| - 1] == Archived(init, done);
      assert Finds(id, after[|after| - 1]) <==> Finds(id, last);
    }
  }

  /** The observation journal. */
  class ObservationStore {
    var rows: seq<Row>

    constructor (rows: seq<Row>)
      ensures this.rows == rows
    {
      this.rows := rows;
    }

    // archive: the rows of every id, one id after the other; all of it is undone when an id is ambiguous.
    method Archive(ids: set<string>) returns (ok: bool)
      modifies this
      ensures ok <==> !Ambiguous(old(rows), ids)
      ensures ok ==> |rows| == |old(rows)| && forall i | 0 <= i < |rows| ::
        rows[i] == if exists id <- ids :: Strip(id) != "" && Finds(Strip(id), old(rows)[i])
                   then Row(old(rows)[i].item, ArchivedRow) else old(rows)[i]
      ensures rows == if ok then Archived(old(rows), Wanted(ids)) else old(rows)
    {
      var before, todo := rows, Wanted(ids);
      NothingArchived(rows);
      assert Wanted(ids) - todo == {};
      while todo != {}
        invariant todo <= Wanted(ids) && rows == Archived(before, Wanted(ids) - todo)
        invariant forall id <- Wanted(ids) - todo :: |Hits(before, id)| <= 1
        decreases todo
      {
        var id :| id in todo;
        SameHits(before, Wanted(ids) - todo, id);
        ArchivedMore(before, Wanted(ids) - todo, id);
        assert Wanted(ids) - todo + {id} == Wanted(ids) - (todo - {id});
        if |Hits(rows, id)| > 1 {
          rows := before;
          return false;
        }
        rows := Archived(rows, {id});
        todo := todo - {id};
      }
      assert Wanted(ids) - todo == Wanted(ids);
      ArchivedByIds(before, ids);
      ok := true;
    }
  }

  lemma ArchivedByIds(rows: seq<Row>, ids: set<string>)
    ensures |Archived(rows, Wanted(ids))| == |rows|
    ensures forall i | 0 <= i < |rows| ::
      Archived(rows, Wanted(ids))[i] == if exists id <- ids :: Strip(id) != "" && Finds(Strip(id), rows[i])
                                        then Row(rows[i].item, ArchivedRow) else rows[i]
  {
    ArchivedAt(rows, Wanted(ids));
    forall i | 0 <= i < |rows|
      ensures Found(rows[i], Wanted(ids)) <==> exists id <- ids :: Strip(id) != "" && Finds(Strip(id), rows[i])
    {
      if id :| id in Wanted(ids) && Finds(id, rows[i]) { var raw :| raw in ids && Strip(raw) == id != ""; }
    }
  }

  lemma {:induction false} NothingArchived(rows: seq<Row>)
    ensures Archived(rows, {}) == rows
  {
    if rows != [] {
      NothingArchived(rows[..|rows| - 1]);
      assert rows == rows[..|rows| - 1] + [rows[|rows| - 1]];
    }
  }

  // ---------------------------------------------------------------- positions

  lemma {:induction false} TwoHits<T>(s: seq<T>, keep: T -> bool, i: nat, j: nat)
    requires i < j < |s| && keep(s[i]) && keep(s[j])
    ensures |Filter(s, keep)| >= 2
  {
    var init := s[..|s| - 1];
    if j < |init| { TwoHits(init, keep, i, j); } else { OneHit(init, keep, i); }
  }

  lemma {:induction false} OneHit<T>(s: seq<T>, keep: T -> bool, i: nat)
    requires i < |s| && keep(s[i])
    ensures |Filter(s, keep)| >= 1
  {
    if i < |s| - 1 { OneHit(s[..|s| - 1], keep, i); }
  }

  lemma {:induction false} NoHits<T>(s: seq<T>, keep: T -> bool)
    requires Filter(s, keep) == []
    ensures forall x <- s :: !keep(x)
  {
    if s != [] {
      NoHits(s[..|s| - 1], keep);
      assert s == s[..|s| - 1] + [s[|s| - 1]];
    }
  }

  lemma {:induction false} AtMostOne<T>(s: seq<T>, keep: T -> bool, i: nat)
    requires i < |s| && forall j | 0 <= j < |s| && j != i :: !keep(s[j])
    ensures |Filter(s, keep)| <= 1
  {
    var init := s[..|s| - 1];
    if i < |init| { AtMostOne(init, keep, i); } else { NoneKept(init, keep); }
  }

  lemma {:induction false} NoneKept<T>(s: seq<T>, keep: T -> bool)
    requires forall j | 0 <= j < |s| :: !keep(s[j])
    ensures Filter(s, keep) == []
  {
    if s != [] { NoneKept(s[..|s| - 1], keep); }
  }

  lemma {:induction false} HitsTwice<T>(s: seq<T>, keep: T -> bool) returns (i: nat, j: nat)
    requires |Filter(s, keep)| >= 2
    ensures i < j < |s| && keep(s[i]) && keep(s[j])
  {
    var init := s[..|s| - 1];
    if |Filter(init, keep)| >= 2 {
      i, j := HitsTwice(init, keep);
    } else {
      i := HitsOnce(init, keep);
      j := |s| - 1;
    }
  }

  lemma {:induction false} HitsOnce<T>(s: seq<T>, keep: T -> bool) returns (i: nat)
    requires |Filter(s, keep)| >= 1
    ensures i < |s| && keep(s[i])
  {
    if keep(s[|s| - 1]) { i := |s| - 1; } else { i := HitsOnce(s[..|s| - 1], keep); }
  }

  // ---------------------------------------------------------------- counting

  function ActiveRows(rows: seq<Row>): nat { |Filter(rows, (row: Row) => row.life == ActiveRow)| }

  function Leaves(wanted: set<string>): Row -> bool { (row: Row) => row.life == ActiveRow && Found(row, wanted) }

  // An archive call takes away the active rows it finds, and no others.
  lemma {:induction false} ArchivedCount(rows: seq<Row>, wanted: set<string>)
    ensures ActiveRows(Archived(rows, wanted)) + |Filter(rows, Leaves(wanted))| == ActiveRows(rows)
  {
    if rows != [] {
      var init, last := rows[..|rows| - 1], rows[|rows| - 1];
      ArchivedCount(init, wanted);
      var after := Archived(rows, wanted);
      assert after[..|after| - 1] == Archived(init, wanted);
    }
  }

  // Lifecycles aside, the rows stay what they are.
  lemma {:induction false} ArchivedNamed(rows: seq<Row>, wanted: set<string>)
    requires Named(rows)
    ensures Named(Archived(rows, wanted))
  {
    ArchivedAt(rows, wanted);
    var after := Archived(rows, wanted);
    forall row | row in after ensures row.item.kind == ObservationItem && EventNameOf(row) != "" {
      var i :| 0 <= i < |after| && after[i] == row;
      assert rows[i] in rows;
    }
  }
}
