/** The server's mutable state: the question table that `loadQuestions`
    rebuilds, and the answers table with SQLite's AUTOINCREMENT counter. */
module Service {
  import opened Wrappers
  import opened Json
  import opened Questions
  import opened Answers

  /** The highest id among the rows, or `floor` when none is higher. */
  function MaxId(rows: seq<Row>, floor: int): (m: int)
    ensures m >= floor && forall i :: 0 <= i < |rows| ==> rows[i].id <= m
    ensures m == floor || exists i :: 0 <= i < |rows| && rows[i].id == m
  {
    if rows == [] then floor
    else
      var m := MaxId(rows[1..], floor);
      assert forall i :: 1 <= i < |rows| ==> rows[i] == rows[1..][i - 1];
      if rows[0].id > m then rows[0].id else m
  }

  /** Row ids are unique (the primary key) and none exceeds the counter. */
  ghost predicate IdsBelow(rows: seq<Row>, counter: int) {
    && (forall i :: 0 <= i < |rows| ==> rows[i].id <= counter)
    && (forall i, j :: 0 <= i < j < |rows| ==> rows[i].id != rows[j].id)
  }

  /** Every id among the rows is below `bound`. */
  ghost predicate AllBelow(rows: seq<Row>, bound: int) {
    forall i :: 0 <= i < |rows| ==> rows[i].id < bound
  }

  /** Appending a row under the next counter value keeps the ids unique. */
  lemma AppendNext(rows: seq<Row>, counter: int, row: Row)
    requires IdsBelow(rows, counter) && row.id == counter + 1
    ensures IdsBelow(rows + [row], counter + 1)
    ensures AllBelow(rows, row.id)
  {
    var r := rows + [row];
    forall i, j | 0 <= i < j < |r|
      ensures r[i].id != r[j].id
    {
      if j == |rows| {
        assert r[i] == rows[i];
      } else {
        assert r[i] == rows[i] && r[j] == rows[j];
      }
    }
  }

  /** An accepted answer is a 1 or a 2, so the table stays binary. */
  lemma AppendBinary(rows: seq<Row>, row: Row)
    requires row.answer == 1 || row.answer == 2
    ensures AllBinary(rows) ==> AllBinary(rows + [row])
  {
    if !AllBinary(rows) {
      return;
    }
    var r := rows + [row];
    forall i | 0 <= i < |r|
      ensures r[i].answer == 1 || r[i].answer == 2
    {
      if i < |rows| {
        assert r[i] == rows[i];
      }
    }
  }

  /** The backfill rewrites only `set_id`, so the ids are untouched. */
  lemma MigratedIds(rows: seq<Row>, counter: int)
    requires IdsBelow(rows, counter)
    ensures IdsBelow(Migrated(rows), counter)
  {
    var m := Migrated(rows);
    assert forall i :: 0 <= i < |m| ==> m[i].id == rows[i].id;
  }

  class SurveyService {
    /** `questionsSets`: set number to the loaded question records. */
    var questionSets: QuestionSets
    /** The rows of the answers table, in storage order. */
    var answers: seq<Row>
    /** SQLite's AUTOINCREMENT counter for the table: the largest id handed out. */
    var lastId: int

    ghost predicate Valid()
      reads this
    {
      IdsBelow(answers, lastId)
    }

    /** Process start: `loadQuestions()`, then opening the database with the
        rows and counter already stored, and the `set_id` backfill. */
    constructor (dir: Directory, stored: seq<Row>, counter: int)
      requires forall i, j :: 0 <= i < j < |stored| ==> stored[i].id != stored[j].id
      ensures Valid()
      ensures questionSets == Loaded(dir)
      ensures answers == Migrated(stored)
      ensures lastId == MaxId(stored, counter)
    {
      questionSets := map[];
      answers := stored;
      lastId := MaxId(stored, counter);
      new;
      var _ := LoadQuestions(dir);
      MigrateLegacyRows();
    }

    /** `loadQuestions`: start from an empty table and scan
        `questions1.yml`, `questions2.yml`, ... up to the first missing file,
        keeping each file that parses to an array. `noneFound` is the
        condition for the "No questions files found" warning. */
    method LoadQuestions(dir: Directory) returns (noneFound: bool)
      modifies this
      ensures questionSets == Loaded(dir)
      ensures answers == old(answers) && lastId == old(lastId)
      ensures noneFound <==> |questionSets| == 0
    {
      questionSets := map[];
      var i := 1;
      while true
        invariant i >= 1
        invariant Loaded(dir) == questionSets + Scan(dir, i)
        invariant forall k :: k in questionSets ==> k < i
        invariant answers == old(answers) && lastId == old(lastId)
        decreases |Above(dir, i)|
      {
        if i !in dir {
          break;
        }
        ScanStep(dir, i);
        if IsArrayFile(dir[i]) {
          var records := Stamp(dir[i].doc.items, i);
          UnionMoves(questionSets, Scan(dir, i + 1), i, records);
          questionSets := questionSets[i := records];
        }
        AboveShrinks(dir, i);
        i := i + 1;
      }
      ScanStops(dir, i);
      noneFound := |questionSets| == 0;
    }

    /** `UPDATE answers SET set_id = 1 WHERE set_id IS NULL`. */
    method MigrateLegacyRows()
      requires Valid()
      modifies this
      ensures Valid()
      ensures answers == Migrated(old(answers))
      ensures questionSets == old(questionSets) && lastId == old(lastId)
    {
      MigratedIds(answers, lastId);
      answers := Migrated(answers);
    }

    /** `POST /api/answers` with JSON body `body`, at time `now`
        (`Date.now()`); `storageFails` stands for the INSERT failing. A
        rejected or failed request leaves the table as it was; an accepted one
        appends exactly one row, under the next AUTOINCREMENT id, and returns
        that id. */
    method SubmitAnswer(body: map<string, Value>, now: int, storageFails: bool) returns (r: Response<int>)
      requires Valid()
      modifies this
      ensures Valid()
      ensures questionSets == old(questionSets)
      ensures Validate(body).BadRequest? ==> r == BadRequest
      ensures Validate(body).ServerError? ==> r == ServerError
      ensures Validate(body).Ok? && storageFails ==> r == ServerError
      ensures r.Ok? <==> Validate(body).Ok? && !storageFails
      ensures !r.Ok? ==> answers == old(answers) && lastId == old(lastId)
      ensures r.Ok? ==>
        && r.body == old(lastId) + 1 && lastId == r.body
        && answers == old(answers) + [NewRow(Validate(body).body, r.body, now)]
        && AllBelow(old(answers), r.body)
      ensures AllBinary(old(answers)) ==> AllBinary(answers)
    {
      var sub := Validate(body);
      if sub.BadRequest? {
        return BadRequest;
      }
      if !sub.Ok? || storageFails {
        return ServerError;
      }
      var row := NewRow(sub.body, lastId + 1, now);
      AppendNext(answers, lastId, row);
      AppendBinary(answers, row);
      lastId := lastId + 1;
      answers := answers + [row];
      r := Ok(lastId);
    }
  }
}
