/** The answers table and the pure parts of the two answer endpoints:
    validation for `POST /api/answers`, the legacy `set_id` backfill, and the
    query behind `GET /api/answers`. */
module Answers {
  import opened Wrappers
  import opened Json
  import opened Params

  /** A row of `answers(id, set_id, question_id, answer, ts)`; `setId` is
      `None` for a NULL `set_id` left by rows older than sets. */
  datatype Row = Row(id: int, setId: Option<int>, questionId: Value, answer: int, ts: int)

  /** A row of `SELECT id, question_id, answer, ts`. */
  datatype Entry = Entry(id: int, questionId: Value, answer: int, ts: int)

  /** What an accepted request body asks to insert. */
  datatype Submission = Submission(setId: int, questionId: Value, answer: int)

  /** A field of the parsed JSON body; a missing one reads as `undefined`. */
  function Field(body: map<string, Value>, name: string): Value {
    if name in body then body[name] else Undefined
  }

  /** The checks of `POST /api/answers` before the insert. The set number
      `parseInt(set, 10) || 1` is computed first, so a `set` whose `String`
      throws makes the request fail (500) whatever else the body holds. Then
      `!questionId || ![1, 2].includes(answer)` rejects the body (400). */
  function Validate(body: map<string, Value>): (r: Response<Submission>)
    ensures r.Ok? || r.BadRequest? || r.ServerError?
    ensures r.ServerError? <==> ParseIntOr(Field(body, "set"), 1).None?
    ensures ParseIntOr(Field(body, "set"), 1).Some? ==>
      (r.BadRequest? <==>
        !Truthy(Field(body, "questionId")) || (Field(body, "answer") != Num(1) && Field(body, "answer") != Num(2)))
    ensures r.Ok? ==>
      && (r.body.answer == 1 || r.body.answer == 2)
      && Field(body, "answer") == Num(r.body.answer)
      && r.body.questionId == Field(body, "questionId")
      && Some(r.body.setId) == ParseIntOr(Field(body, "set"), 1)
  {
    match ParseIntOr(Field(body, "set"), 1)
    case None => ServerError
    case Some(setId) =>
      var questionId := Field(body, "questionId");
      var answer := Field(body, "answer");
      if !Truthy(questionId) || !(answer == Num(1) || answer == Num(2)) then BadRequest
      else Ok(Submission(setId, questionId, answer.n))
  }

  /** The row an accepted submission inserts. */
  function NewRow(sub: Submission, id: int, ts: int): Row {
    Row(id, Some(sub.setId), sub.questionId, sub.answer, ts)
  }

  /** Every stored answer is a 1 or a 2. */
  predicate AllBinary(log: seq<Row>) {
    forall i :: 0 <= i < |log| ==> log[i].answer == 1 || log[i].answer == 2
  }

  /** `UPDATE answers SET set_id = 1 WHERE set_id IS NULL`. */
  function Migrated(log: seq<Row>): (r: seq<Row>)
    ensures |r| == |log|
    ensures forall i :: 0 <= i < |r| ==> r[i].setId.Some?
    ensures forall i :: 0 <= i < |r| ==> r[i] == if log[i].setId.Some? then log[i] else log[i].(setId := Some(1))
  {
    if log == [] then []
    else
      var row := log[0];
      [if row.setId.Some? then row else row.(setId := Some(1))] + Migrated(log[1..])
  }

  /** Running the backfill twice changes nothing more. */
  lemma MigratedIdempotent(log: seq<Row>)
    ensures Migrated(Migrated(log)) == Migrated(log)
  {
  }

  /** The rows with `set_id = s`, in storage order. */
  function InSet(log: seq<Row>, s: int): (r: seq<Row>)
    ensures forall x :: x in r ==> x in log && x.setId == Some(s)
    ensures multiset(r) <= multiset(log)
  {
    if log == [] then []
    else
      assert log == [log[0]] + log[1..];
      if log[0].setId == Some(s) then [log[0]] + InSet(log[1..], s)
      else InSet(log[1..], s)
  }

  /** `WHERE set_id = s` keeps every row of the set, as often as it is
      stored, and no other row. */
  lemma {:induction false} InSetCounts(log: seq<Row>, s: int, x: Row)
    ensures multiset(InSet(log, s))[x] == if x.setId == Some(s) then multiset(log)[x] else 0
  {
    if log != [] {
      assert log == [log[0]] + log[1..];
      InSetCounts(log[1..], s, x);
    }
  }

  /** Timestamps do not increase along `rows`. */
  predicate Descending(rows: seq<Row>) {
    forall i, j :: 0 <= i < j < |rows| ==> rows[i].ts >= rows[j].ts
  }

  /** Places `x` after every row with a timestamp at least its own. */
  function Insert(x: Row, sorted: seq<Row>): seq<Row> {
    if sorted == [] then [x]
    else if sorted[0].ts >= x.ts then [sorted[0]] + Insert(x, sorted[1..])
    else [x] + sorted
  }

  lemma DescendingCons(h: Row, tail: seq<Row>)
    requires Descending(tail)
    requires tail == [] || tail[0].ts <= h.ts
    ensures Descending([h] + tail)
  {
    var r := [h] + tail;
    forall i, j | 0 <= i < j < |r| ensures r[i].ts >= r[j].ts {
      if i == 0 && j > 1 {
        assert r[j] == tail[j - 1] && tail[0].ts >= tail[j - 1].ts;
      }
    }
  }

  /** Inserting into a newest-first sequence keeps it newest first and adds
      exactly `x`. */
  lemma {:induction false} InsertSpec(x: Row, sorted: seq<Row>)
    requires Descending(sorted)
    ensures Descending(Insert(x, sorted))
    ensures multiset(Insert(x, sorted)) == multiset(sorted) + multiset{x}
    ensures sorted != [] ==> Insert(x, sorted)[0] == x || Insert(x, sorted)[0] == sorted[0]
  {
    if sorted == [] {
    } else if sorted[0].ts >= x.ts {
      var rest := sorted[1..];
      assert sorted == [sorted[0]] + rest;
      assert Descending(rest);
      InsertSpec(x, rest);
      var tail := Insert(x, rest);
      DescendingCons(sorted[0], tail);
    } else {
      DescendingCons(x, sorted);
    }
  }

  /** `ORDER BY ts DESC`, keeping rows with equal timestamps in storage order. */
  function SortDescending(rows: seq<Row>): seq<Row> {
    if rows == [] then []
    else Insert(rows[|rows| - 1], SortDescending(rows[..|rows| - 1]))
  }

  /** Sorting yields a newest-first permutation of the rows. */
  lemma {:induction false} SortDescendingSpec(rows: seq<Row>)
    ensures Descending(SortDescending(rows))
    ensures multiset(SortDescending(rows)) == multiset(rows)
  {
    if rows != [] {
      var init := rows[..|rows| - 1];
      assert rows == init + [rows[|rows| - 1]];
      SortDescendingSpec(init);
      InsertSpec(rows[|rows| - 1], SortDescending(init));
    }
  }

  /** `LIMIT limit`: SQLite reads a negative limit as no limit at all. */
  function Take(rows: seq<Row>, limit: int): (r: seq<Row>)
    ensures |r| == (if limit < 0 || limit >= |rows| then |rows| else limit)
    ensures r == rows[..|r|]
  {
    if limit < 0 || limit >= |rows| then rows else rows[..limit]
  }

  /** The rows of `... WHERE set_id = s ORDER BY ts DESC LIMIT limit`. */
  function RecentRows(log: seq<Row>, s: int, limit: int): seq<Row> {
    Take(SortDescending(InSet(log, s)), limit)
  }

  /** In a newest-first sequence split in two, every row of the first part
      is at least as new as every row of the second. */
  lemma SplitDescending(kept: seq<Row>, dropped: seq<Row>)
    requires Descending(kept + dropped)
    ensures Descending(kept)
    ensures forall x, y :: x in dropped && y in kept ==> y.ts >= x.ts
  {
    var all := kept + dropped;
    forall x, y | x in dropped && y in kept ensures y.ts >= x.ts {
      var i :| 0 <= i < |kept| && kept[i] == y;
      var j :| 0 <= j < |dropped| && dropped[j] == x;
      assert all[i] == y && all[|kept| + j] == x;
    }
    forall i, j | 0 <= i < j < |kept| ensures kept[i].ts >= kept[j].ts {
      assert all[i] == kept[i] && all[j] == kept[j];
    }
  }

  /** The recent rows of set `s` come from set `s`, newest first, as many as
      the limit allows, and none left out is newer than one kept. */
  lemma RecentRowsSpec(log: seq<Row>, s: int, limit: int)
    ensures var r := RecentRows(log, s, limit);
      && (forall x :: x in r ==> x in log && x.setId == Some(s))
      && Descending(r)
      && |r| == (if limit < 0 || limit >= |InSet(log, s)| then |InSet(log, s)| else limit)
      && multiset(r) <= multiset(InSet(log, s))
      && (forall x, y :: x in multiset(InSet(log, s)) - multiset(r) && y in r ==> y.ts >= x.ts)
  {
    var all := InSet(log, s);
    var sorted := SortDescending(all);
    SortDescendingSpec(all);
    var r := RecentRows(log, s, limit);
    var dropped := sorted[|r|..];
    assert sorted == r + dropped;
    SplitDescending(r, dropped);
    assert multiset(sorted) == multiset(r) + multiset(dropped);
    assert multiset(all) - multiset(r) == multiset(dropped);
    forall x | x in r ensures x in log && x.setId == Some(s) {
      assert x in multiset(sorted);
      assert x in all;
    }
  }

  function Project(row: Row): Entry {
    Entry(row.id, row.questionId, row.answer, row.ts)
  }

  /** The rows as the query's four columns. */
  function ProjectAll(rows: seq<Row>): (r: seq<Entry>)
    ensures |r| == |rows| && forall i :: 0 <= i < |r| ==> r[i] == Project(rows[i])
  {
    seq(|rows|, i requires 0 <= i < |rows| => Project(rows[i]))
  }

  /** What the query promises of the rows it returns for set `s` and limit
      `limit`: as many as the limit allows (all of them for a negative limit),
      newest first, drawn from the set's rows without repetition, and no row
      of the set left out is newer than one returned. */
  ghost predicate IsRecentRows(log: seq<Row>, s: int, limit: int, rows: seq<Row>) {
    && |rows| == (if limit < 0 || limit >= |InSet(log, s)| then |InSet(log, s)| else limit)
    && Descending(rows)
    && multiset(rows) <= multiset(InSet(log, s))
    && (forall x, y :: x in multiset(InSet(log, s)) - multiset(rows) && y in rows ==> y.ts >= x.ts)
  }

  /** What `GET /api/answers` promises of its entries: the four columns of
      rows the query may return. */
  ghost predicate IsRecent(log: seq<Row>, s: int, limit: int, e: seq<Entry>) {
    exists rows :: IsRecentRows(log, s, limit, rows) && e == ProjectAll(rows)
  }

  lemma ProjectedRows(log: seq<Row>, s: int, limit: int)
    ensures IsRecent(log, s, limit, ProjectAll(RecentRows(log, s, limit)))
  {
    RecentRowsSpec(log, s, limit);
    assert IsRecentRows(log, s, limit, RecentRows(log, s, limit));
  }

  /** `en` is what the query selects of some row of set `s` in the log. */
  ghost predicate ProjectedFrom(log: seq<Row>, s: int, en: Entry) {
    exists x :: x in log && x.setId == Some(s) && en == Project(x)
  }

  /** Entries the endpoint may return are rows of the set, newest first. */
  lemma RecentEntries(log: seq<Row>, s: int, limit: int, e: seq<Entry>)
    requires IsRecent(log, s, limit, e)
    ensures forall i, j :: 0 <= i < j < |e| ==> e[i].ts >= e[j].ts
    ensures forall i :: 0 <= i < |e| ==> ProjectedFrom(log, s, e[i])
  {
    var rows: seq<Row> :| IsRecentRows(log, s, limit, rows) && e == ProjectAll(rows);
    EntriesOfRows(log, s, rows, e);
  }

  lemma EntriesOfRows(log: seq<Row>, s: int, rows: seq<Row>, e: seq<Entry>)
    requires Descending(rows) && multiset(rows) <= multiset(InSet(log, s))
    requires e == ProjectAll(rows)
    ensures forall i, j :: 0 <= i < j < |e| ==> e[i].ts >= e[j].ts
    ensures forall i :: 0 <= i < |e| ==> ProjectedFrom(log, s, e[i])
  {
    forall i | 0 <= i < |e| ensures ProjectedFrom(log, s, e[i]) {
      assert rows[i] in multiset(InSet(log, s));
      assert rows[i] in InSet(log, s);
      assert rows[i] in log && rows[i].setId == Some(s) && e[i] == Project(rows[i]);
    }
    forall i, j | 0 <= i < j < |e| ensures e[i].ts >= e[j].ts {
      assert e[i].ts == rows[i].ts && e[j].ts == rows[j].ts;
    }
  }

  /** With two rows of a set, `LIMIT 1` returns the newer one. */
  lemma NewestFirstExample(a: Row, b: Row, e: seq<Entry>)
    requires a.setId == Some(7) && b.setId == Some(7) && a.ts > b.ts
    requires IsRecent([a, b], 7, 1, e)
    ensures e == [Project(a)]
  {
    var rows: seq<Row> :| IsRecentRows([a, b], 7, 1, rows) && e == ProjectAll(rows);
    InSetAll([a, b], 7);
    assert |rows| == 1 && multiset(rows) <= multiset([a, b]);
    KeepNewer(a, b, rows);
    ProjectOne(a);
  }

  lemma KeepNewer(a: Row, b: Row, rows: seq<Row>)
    requires a.ts > b.ts && |rows| == 1 && multiset(rows) <= multiset([a, b])
    requires forall x, y :: x in multiset([a, b]) - multiset(rows) && y in rows ==> y.ts >= x.ts
    ensures rows == [a]
  {
    assert rows == [rows[0]];
    assert rows[0] in multiset([a, b]);
    if rows[0] != a {
      assert false;
    }
  }

  /** With two rows of a set and `LIMIT 2`, each comes once, newer first. */
  lemma NoRepeatExample(a: Row, b: Row, e: seq<Entry>)
    requires a.setId == Some(7) && b.setId == Some(7) && a.ts > b.ts
    requires IsRecent([a, b], 7, 2, e)
    ensures e == [Project(a), Project(b)]
  {
    var rows: seq<Row> :| IsRecentRows([a, b], 7, 2, rows) && e == ProjectAll(rows);
    InSetAll([a, b], 7);
    assert |rows| == 2 && Descending(rows) && multiset(rows) <= multiset([a, b]);
    KeepBoth(a, b, rows);
    ProjectTwo(a, b);
  }

  lemma ProjectOne(a: Row)
    ensures ProjectAll([a]) == [Project(a)]
  {
  }

  lemma ProjectTwo(a: Row, b: Row)
    ensures ProjectAll([a, b]) == [Project(a), Project(b)]
  {
  }

  lemma KeepBoth(a: Row, b: Row, rows: seq<Row>)
    requires a.ts > b.ts && |rows| == 2 && multiset(rows) <= multiset([a, b]) && Descending(rows)
    ensures rows == [a, b]
  {
    assert rows == [rows[0], rows[1]];
    assert rows[0].ts >= rows[1].ts;
    assert multiset(rows) == multiset{rows[0], rows[1]};
    assert multiset([a, b]) == multiset{a, b};
    if rows[0] != a || rows[1] != b {
      assert false;
    }
  }

  /** `GET /api/answers?set=...&limit=...`: 500 when `String` of either
      parameter throws or the query fails; otherwise the newest rows of the
      set, at most `parseInt(limit, 10) || 1000` of them. */
  function RecentAnswers(log: seq<Row>, setParam: Value, limitParam: Value, storageFails: bool): (r: Response<seq<Entry>>)
    ensures r.Ok? || r.ServerError?
    ensures r.ServerError? <==>
      ParseIntOr(setParam, 1).None? || ParseIntOr(limitParam, 1000).None? || storageFails
    ensures r.Ok? ==> IsRecent(log, ParseIntOr(setParam, 1).value, ParseIntOr(limitParam, 1000).value, r.body)
  {
    match (ParseIntOr(setParam, 1), ParseIntOr(limitParam, 1000))
    case (Some(s), Some(limit)) =>
      if storageFails then ServerError
      else
        ProjectedRows(log, s, limit);
        Ok(ProjectAll(RecentRows(log, s, limit)))
    case _ => ServerError
  }

  lemma {:induction false} InSetNone(log: seq<Row>, s: int)
    requires forall x :: x in log ==> x.setId != Some(s)
    ensures InSet(log, s) == []
  {
    if log != [] {
      assert log[0] in log;
      assert forall x :: x in log[1..] ==> x in log;
      InSetNone(log[1..], s);
    }
  }

  /** A set with no rows yields an empty list, not an error. */
  lemma RecentOfEmptySet(log: seq<Row>, setParam: Value, limitParam: Value)
    requires ParseIntOr(setParam, 1).Some? && ParseIntOr(limitParam, 1000).Some?
    requires forall x :: x in log ==> x.setId != ParseIntOr(setParam, 1)
    ensures RecentAnswers(log, setParam, limitParam, false) == Ok([])
  {
    var s := ParseIntOr(setParam, 1).value;
    var limit := ParseIntOr(limitParam, 1000).value;
    InSetNone(log, s);
    assert RecentRows(log, s, limit) == [];
    assert ProjectAll([]) == [];
  }

  /** Appending `n` rows of a set and listing it with a limit of at least `n`
      returns all `n`, newest first. */
  lemma RecentReturnsAll(log: seq<Row>, s: int, limit: int)
    requires forall x :: x in log ==> x.setId == Some(s)
    requires limit >= |log| || limit < 0
    ensures |RecentRows(log, s, limit)| == |log|
    ensures Descending(RecentRows(log, s, limit))
    ensures multiset(RecentRows(log, s, limit)) == multiset(log)
  {
    InSetAll(log, s);
    RecentRowsSpec(log, s, limit);
    var r := RecentRows(log, s, limit);
    assert |multiset(r)| == |r| == |log| == |multiset(log)|;
    var d := multiset(log) - multiset(r);
    assert multiset(log) == multiset(r) + d;
    assert |d| == 0;
  }

  lemma {:induction false} InSetAll(log: seq<Row>, s: int)
    requires forall x :: x in log ==> x.setId == Some(s)
    ensures InSet(log, s) == log
  {
    if log != [] {
      assert log[0] in log;
      assert forall x :: x in log[1..] ==> x in log;
      InSetAll(log[1..], s);
      assert log == [log[0]] + log[1..];
    }
  }
}
