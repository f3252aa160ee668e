/** `GET /api/stats`: the GROUP BY query, then the `forEach` that builds
    `byQuestion` and the `reduce` that builds `totals`. */
module Stats {
  import opened Wrappers
  import opened Decimal
  import opened Json
  import opened Params
  import opened Answers

  /** The (question_id, answer) of a row. */
  datatype Pair = Pair(questionId: Value, answer: int)

  /** A row of `SELECT question_id, answer, COUNT(*) as cnt ... GROUP BY
      question_id, answer`. */
  datatype Group = Group(questionId: Value, answer: int, cnt: nat)

  /** Counts keyed by `String(answer)`. */
  type Counts = map<string, nat>

  datatype StatsBody = StatsBody(totals: Counts, byQuestion: map<Value, Counts>)

  function KeyOf(g: Group): Pair {
    Pair(g.questionId, g.answer)
  }

  /** `String(r.answer)`, the key an answer is counted under. */
  function AnswerKey(a: int): string {
    DecimalString(a)
  }

  /** The pairs of the rows with `set_id = s`, in storage order. */
  function Pairs(log: seq<Row>, s: int): seq<Pair> {
    var rows := InSet(log, s);
    seq(|rows|, i requires 0 <= i < |rows| => Pair(rows[i].questionId, rows[i].answer))
  }

  /** How often pair `x` occurs. */
  function Count(ps: seq<Pair>, x: Pair): nat {
    if ps == [] then 0 else (if ps[0] == x then 1 else 0) + Count(ps[1..], x)
  }

  /** How many pairs carry answer `a`, whatever their question. */
  function CountAnswer(ps: seq<Pair>, a: int): nat {
    if ps == [] then 0 else (if ps[0].answer == a then 1 else 0) + CountAnswer(ps[1..], a)
  }

  function RemoveAll(ps: seq<Pair>, x: Pair): (r: seq<Pair>)
    ensures forall y :: y in r <==> y in ps && y != x
  {
    if ps == [] then []
    else
      assert forall y :: y in ps <==> y == ps[0] || y in ps[1..];
      if ps[0] == x then RemoveAll(ps[1..], x) else [ps[0]] + RemoveAll(ps[1..], x)
  }

  /** The distinct pairs, in order of first occurrence. */
  function Distinct(ps: seq<Pair>): (d: seq<Pair>)
    ensures forall i, j :: 0 <= i < j < |d| ==> d[i] != d[j]
    ensures forall x :: x in d <==> x in ps
  {
    if ps == [] then []
    else
      var init := ps[..|ps| - 1];
      var x := ps[|ps| - 1];
      assert ps == init + [x];
      var d := Distinct(init);
      if x in d then d else d + [x]
  }

  /** A correct answer to the GROUP BY query over `ps`, in any order: one row
      per distinct pair, carrying the number of times it occurs. */
  ghost predicate IsGroupBy(groups: seq<Group>, ps: seq<Pair>) {
    && (forall i, j :: 0 <= i < j < |groups| ==> KeyOf(groups[i]) != KeyOf(groups[j]))
    && (forall i :: 0 <= i < |groups| ==> KeyOf(groups[i]) in ps && groups[i].cnt == Count(ps, KeyOf(groups[i])))
    && (forall p :: p in ps ==> exists i :: 0 <= i < |groups| && KeyOf(groups[i]) == p)
  }

  /** The GROUP BY query, its groups in order of first occurrence. */
  function GroupBy(ps: seq<Pair>): (groups: seq<Group>)
    ensures IsGroupBy(groups, ps)
  {
    var d := Distinct(ps);
    var groups := seq(|d|, i requires 0 <= i < |d| => Group(d[i].questionId, d[i].answer, Count(ps, d[i])));
    assert forall i :: 0 <= i < |groups| ==> KeyOf(groups[i]) == d[i];
    assert forall p :: p in ps ==> exists i :: 0 <= i < |groups| && KeyOf(groups[i]) == p by {
      forall p | p in ps ensures exists i :: 0 <= i < |groups| && KeyOf(groups[i]) == p {
        var i :| 0 <= i < |d| && d[i] == p;
        assert KeyOf(groups[i]) == p;
      }
    }
    groups
  }

  /** `byQuestion` after the `forEach` has visited `groups`: each question
      starts at `{'1': 0, '2': 0}`, then each group writes its count. */
  function ByQuestionOf(groups: seq<Group>): map<Value, Counts> {
    if groups == [] then map[]
    else
      var m := ByQuestionOf(groups[..|groups| - 1]);
      var g := groups[|groups| - 1];
      var entry: Counts := if g.questionId in m then m[g.questionId] else map["1" := 0, "2" := 0];
      m[g.questionId := entry[AnswerKey(g.answer) := g.cnt]]
  }

  /** `totals` after the `reduce` has visited `groups`: each group adds its
      count under its answer. */
  function TotalsOf(groups: seq<Group>): Counts {
    if groups == [] then map[]
    else
      var acc := TotalsOf(groups[..|groups| - 1]);
      var g := groups[|groups| - 1];
      var k := AnswerKey(g.answer);
      acc[k := (if k in acc then acc[k] else 0) + g.cnt]
  }

  method BuildByQuestion(groups: seq<Group>) returns (byQuestion: map<Value, Counts>)
    ensures byQuestion == ByQuestionOf(groups)
  {
    byQuestion := map[];
    var i := 0;
    while i < |groups|
      invariant 0 <= i <= |groups|
      invariant byQuestion == ByQuestionOf(groups[..i])
    {
      var g := groups[i];
      assert groups[..i + 1][..i] == groups[..i];
      if g.questionId !in byQuestion {
        var zeroes: Counts := map["1" := 0, "2" := 0];
        byQuestion := byQuestion[g.questionId := zeroes];
      }
      var entry: Counts := byQuestion[g.questionId];
      byQuestion := byQuestion[g.questionId := entry[AnswerKey(g.answer) := g.cnt]];
      i := i + 1;
    }
    assert groups[..i] == groups;
  }

  method BuildTotals(groups: seq<Group>) returns (totals: Counts)
    ensures totals == TotalsOf(groups)
  {
    totals := map[];
    for i := 0 to |groups|
      invariant totals == TotalsOf(groups[..i])
    {
      assert groups[..i + 1][..i] == groups[..i];
      var k := AnswerKey(groups[i].answer);
      totals := totals[k := (if k in totals then totals[k] else 0) + groups[i].cnt];
    }
    assert groups[..|groups|] == groups;
  }

  /** The count the last group for question `q` and answer key `k` wrote, or
      0 when none did. */
  function LastCnt(groups: seq<Group>, q: Value, k: string): nat {
    if groups == [] then 0
    else
      var g := groups[|groups| - 1];
      if g.questionId == q && AnswerKey(g.answer) == k then g.cnt
      else LastCnt(groups[..|groups| - 1], q, k)
  }

  /** The summed counts of the groups whose answer key is `k`. */
  function SumKey(groups: seq<Group>, k: string): nat {
    if groups == [] then 0
    else
      var g := groups[|groups| - 1];
      SumKey(groups[..|groups| - 1], k) + (if AnswerKey(g.answer) == k then g.cnt else 0)
  }

  /** The summed counts of the groups with answer `a`. */
  function SumAnswer(groups: seq<Group>, a: int): nat {
    if groups == [] then 0
    else
      var g := groups[|groups| - 1];
      SumAnswer(groups[..|groups| - 1], a) + (if g.answer == a then g.cnt else 0)
  }

  function QuestionsOf(groups: seq<Group>): set<Value> {
    set g | g in groups :: g.questionId
  }

  function AnswerKeysOf(groups: seq<Group>, q: Value): set<string> {
    set g | g in groups && g.questionId == q :: AnswerKey(g.answer)
  }

  /** What the `forEach` builds, for any query result, at question `q` and
      key `k`: an entry for each question, with keys "1", "2" and the answers
      seen, holding the last count written. */
  lemma {:induction false} ByQuestionAt(groups: seq<Group>, q: Value, k: string)
    ensures var m := ByQuestionOf(groups);
      && (q in m <==> q in QuestionsOf(groups))
      && (q in m ==> (k in m[q] <==> k == "1" || k == "2" || k in AnswerKeysOf(groups, q)))
      && (q in m && k in m[q] ==> m[q][k] == LastCnt(groups, q, k))
  {
    if groups != [] {
      var init := groups[..|groups| - 1];
      var g := groups[|groups| - 1];
      assert groups == init + [g];
      ByQuestionAt(init, q, k);
      OfSnoc(init, g, q);
      var m0 := ByQuestionOf(init);
      var entry: Counts := if g.questionId in m0 then m0[g.questionId] else map["1" := 0, "2" := 0];
      assert ByQuestionOf(groups) == m0[g.questionId := entry[AnswerKey(g.answer) := g.cnt]];
      assert LastCnt(groups, q, k) ==
        if g.questionId == q && AnswerKey(g.answer) == k then g.cnt else LastCnt(init, q, k);
      if q !in QuestionsOf(init) {
        LastCntNoQuestion(init, q, k);
      }
    }
  }

  /** How the key sets grow by one group. */
  lemma OfSnoc(init: seq<Group>, g: Group, q: Value)
    ensures QuestionsOf(init + [g]) == QuestionsOf(init) + {g.questionId}
    ensures AnswerKeysOf(init + [g], q) == AnswerKeysOf(init, q) + (if g.questionId == q then {AnswerKey(g.answer)} else {})
    ensures (init + [g])[..|init|] == init
  {
    var groups := init + [g];
    assert forall h :: h in groups <==> h in init || h == g;
  }

  lemma {:induction false} LastCntNoQuestion(groups: seq<Group>, q: Value, k: string)
    requires q !in QuestionsOf(groups)
    ensures LastCnt(groups, q, k) == 0
  {
    if groups != [] {
      var init := groups[..|groups| - 1];
      assert groups[|groups| - 1] in groups;
      assert QuestionsOf(init) <= QuestionsOf(groups);
      LastCntNoQuestion(init, q, k);
    }
  }

  /** The questions answered in `ps`. */
  function QuestionsIn(ps: seq<Pair>): set<Value> {
    set p | p in ps :: p.questionId
  }

  /** The answer keys given to question `q` in `ps`. */
  function AnswerKeysIn(ps: seq<Pair>, q: Value): set<string> {
    set p | p in ps && p.questionId == q :: AnswerKey(p.answer)
  }

  /** The answer keys given in `ps`. */
  function AllAnswerKeysIn(ps: seq<Pair>): set<string> {
    set p | p in ps :: AnswerKey(p.answer)
  }

  function AnswerKeys(groups: seq<Group>): set<string> {
    set g | g in groups :: AnswerKey(g.answer)
  }

  /** What the `reduce` builds, for any query result, at key `k`: a total for
      each answer seen, the sum of its groups' counts. */
  lemma {:induction false} TotalsAt(groups: seq<Group>, k: string)
    ensures var t := TotalsOf(groups);
      && (k in t <==> k in AnswerKeys(groups))
      && (k in t ==> t[k] == SumKey(groups, k))
  {
    if groups != [] {
      var init := groups[..|groups| - 1];
      var g := groups[|groups| - 1];
      assert groups == init + [g];
      TotalsAt(init, k);
      assert k in AnswerKeys(groups) <==> k in AnswerKeys(init) || k == AnswerKey(g.answer);
      if k !in AnswerKeys(init) {
        SumKeyNoAnswer(init, k);
      }
    }
  }

  lemma {:induction false} SumKeyNoAnswer(groups: seq<Group>, k: string)
    requires k !in AnswerKeys(groups)
    ensures SumKey(groups, k) == 0
  {
    if groups != [] {
      var init := groups[..|groups| - 1];
      assert groups[|groups| - 1] in groups;
      assert AnswerKeys(init) <= AnswerKeys(groups);
      SumKeyNoAnswer(init, k);
    }
  }

  lemma {:induction false} LastCntFound(groups: seq<Group>, i: int, q: Value, a: int)
    requires forall m, n :: 0 <= m < n < |groups| ==> KeyOf(groups[m]) != KeyOf(groups[n])
    requires 0 <= i < |groups| && KeyOf(groups[i]) == Pair(q, a)
    ensures LastCnt(groups, q, AnswerKey(a)) == groups[i].cnt
  {
    var last := |groups| - 1;
    var g := groups[last];
    if i < last {
      DecimalStringInjective(g.answer, a);
      assert KeyOf(g) != Pair(q, a);
      LastCntFound(groups[..last], i, q, a);
    }
  }

  lemma {:induction false} LastCntAbsent(groups: seq<Group>, q: Value, a: int)
    requires forall i :: 0 <= i < |groups| ==> KeyOf(groups[i]) != Pair(q, a)
    ensures LastCnt(groups, q, AnswerKey(a)) == 0
  {
    if groups != [] {
      var last := |groups| - 1;
      DecimalStringInjective(groups[last].answer, a);
      LastCntAbsent(groups[..last], q, a);
    }
  }

  lemma {:induction false} SumKeyIsSumAnswer(groups: seq<Group>, a: int)
    ensures SumKey(groups, AnswerKey(a)) == SumAnswer(groups, a)
  {
    if groups != [] {
      var last := |groups| - 1;
      DecimalStringInjective(groups[last].answer, a);
      SumKeyIsSumAnswer(groups[..last], a);
    }
  }

  lemma {:induction false} CountAbsent(ps: seq<Pair>, x: Pair)
    requires x !in ps
    ensures Count(ps, x) == 0
  {
    if ps != [] {
      assert ps[0] in ps;
      assert forall y :: y in ps[1..] ==> y in ps;
      CountAbsent(ps[1..], x);
    }
  }

  lemma {:induction false} CountRemoveOther(ps: seq<Pair>, x: Pair, y: Pair)
    requires x != y
    ensures Count(RemoveAll(ps, x), y) == Count(ps, y)
  {
    if ps != [] {
      CountRemoveOther(ps[1..], x, y);
      if ps[0] != x {
        assert ([ps[0]] + RemoveAll(ps[1..], x))[1..] == RemoveAll(ps[1..], x);
      }
    }
  }

  lemma {:induction false} CountAnswerSplit(ps: seq<Pair>, x: Pair, a: int)
    ensures CountAnswer(ps, a) ==
      CountAnswer(RemoveAll(ps, x), a) + (if x.answer == a then Count(ps, x) else 0)
  {
    if ps != [] {
      CountAnswerSplit(ps[1..], x, a);
      if ps[0] != x {
        assert ([ps[0]] + RemoveAll(ps[1..], x))[1..] == RemoveAll(ps[1..], x);
      }
    }
  }

  /** Over a correct GROUP BY result, the counts of the groups with answer `a`
      add up to the number of pairs with answer `a`. */
  lemma {:induction false} SumAnswerCounts(groups: seq<Group>, ps: seq<Pair>, a: int)
    requires IsGroupBy(groups, ps)
    ensures SumAnswer(groups, a) == CountAnswer(ps, a)
    decreases |groups|
  {
    if groups == [] {
      PairsNeedGroups(groups, ps);
    } else {
      var last := |groups| - 1;
      var x := KeyOf(groups[last]);
      DropLastGroup(groups, ps);
      SumAnswerCounts(groups[..last], RemoveAll(ps, x), a);
      SumAnswerStep(groups, ps, a);
    }
  }

  lemma SumAnswerStep(groups: seq<Group>, ps: seq<Pair>, a: int)
    requires groups != []
    requires var g := groups[|groups| - 1]; g.cnt == Count(ps, KeyOf(g))
    requires SumAnswer(groups[..|groups| - 1], a) == CountAnswer(RemoveAll(ps, KeyOf(groups[|groups| - 1])), a)
    ensures SumAnswer(groups, a) == CountAnswer(ps, a)
  {
    CountAnswerSplit(ps, KeyOf(groups[|groups| - 1]), a);
  }

  /** A GROUP BY result without groups comes from no pairs. */
  lemma PairsNeedGroups(groups: seq<Group>, ps: seq<Pair>)
    requires IsGroupBy(groups, ps)
    ensures ps != [] ==> groups != []
  {
    if ps != [] {
      var i := GroupIndex(groups, ps, ps[0]);
    }
  }

  /** Dropping the last group and every occurrence of its pair leaves a
      correct GROUP BY result. */
  lemma DropLastGroup(groups: seq<Group>, ps: seq<Pair>)
    requires IsGroupBy(groups, ps) && groups != []
    ensures IsGroupBy(groups[..|groups| - 1], RemoveAll(ps, KeyOf(groups[|groups| - 1])))
  {
    var last := |groups| - 1;
    var init := groups[..last];
    var x := KeyOf(groups[last]);
    var rest := RemoveAll(ps, x);
    forall i | 0 <= i < |init|
      ensures KeyOf(init[i]) in rest && init[i].cnt == Count(rest, KeyOf(init[i]))
    {
      assert KeyOf(groups[i]) != x;
      CountRemoveOther(ps, x, KeyOf(init[i]));
    }
    forall p | p in rest ensures exists i :: 0 <= i < |init| && KeyOf(init[i]) == p {
      var i :| 0 <= i < |groups| && KeyOf(groups[i]) == p;
      assert i != last;
      assert KeyOf(init[i]) == p;
    }
  }

  /** Over a correct GROUP BY result, the questions (and the answers to a
      question) the groups mention are those that occur in the pairs. */
  lemma GroupKeysAgree(groups: seq<Group>, ps: seq<Pair>, q: Value, k: string)
    requires IsGroupBy(groups, ps)
    ensures q in QuestionsOf(groups) <==> q in QuestionsIn(ps)
    ensures k in AnswerKeysOf(groups, q) <==> k in AnswerKeysIn(ps, q)
    ensures k in AnswerKeys(groups) <==> k in AllAnswerKeysIn(ps)
  {
    forall p | p in ps ensures groups[GroupIndex(groups, ps, p)] in groups {
    }
    forall g | g in groups ensures KeyOf(g) in ps {
      var i :| 0 <= i < |groups| && groups[i] == g;
    }
  }

  function GroupIndex(groups: seq<Group>, ps: seq<Pair>, p: Pair): (i: int)
    requires IsGroupBy(groups, ps) && p in ps
    ensures 0 <= i < |groups| && KeyOf(groups[i]) == p
  {
    var i :| 0 <= i < |groups| && KeyOf(groups[i]) == p; i
  }

  /** The `byQuestion` of a correct GROUP BY result (in any order) at
      question `q` and answer `a`: an entry exactly for the questions answered
      in the set, each with keys "1", "2" and the answers given, holding how
      often that answer was given. */
  lemma ByQuestionCountsAt(groups: seq<Group>, ps: seq<Pair>, q: Value, a: int)
    requires IsGroupBy(groups, ps)
    ensures var m := ByQuestionOf(groups); var k := AnswerKey(a);
      && (q in m <==> q in QuestionsIn(ps))
      && (q in m ==> (k in m[q] <==> k == "1" || k == "2" || k in AnswerKeysIn(ps, q)))
      && (q in m && k in m[q] ==> m[q][k] == Count(ps, Pair(q, a)))
  {
    ByQuestionAt(groups, q, AnswerKey(a));
    GroupKeysAgree(groups, ps, q, AnswerKey(a));
    if Pair(q, a) in ps {
      LastCntFound(groups, GroupIndex(groups, ps, Pair(q, a)), q, a);
    } else {
      CountAbsent(ps, Pair(q, a));
      LastCntAbsent(groups, q, a);
    }
  }

  /** The `totals` of a correct GROUP BY result (in any order) at answer `a`:
      a key exactly for the answers given in the set, holding how often each
      was given. */
  lemma TotalsCountsAt(groups: seq<Group>, ps: seq<Pair>, a: int)
    requires IsGroupBy(groups, ps)
    ensures var t := TotalsOf(groups); var k := AnswerKey(a);
      && (k in t <==> k in AllAnswerKeysIn(ps))
      && (k in t ==> t[k] == CountAnswer(ps, a))
  {
    TotalsAt(groups, AnswerKey(a));
    GroupKeysAgree(groups, ps, Value.Null, AnswerKey(a));
    SumKeyIsSumAnswer(groups, a);
    SumAnswerCounts(groups, ps, a);
  }

  /** `byQuestion` for the pairs `ps` of a set: an entry exactly for each
      question answered, with keys "1", "2" and every answer given to it,
      each holding how often that answer was given. */
  ghost predicate ByQuestionIsCounts(m: map<Value, Counts>, ps: seq<Pair>) {
    && m.Keys == QuestionsIn(ps)
    && (forall q :: q in m ==> m[q].Keys == {"1", "2"} + AnswerKeysIn(ps, q))
    && (forall q, a :: q in m && AnswerKey(a) in m[q] ==> m[q][AnswerKey(a)] == Count(ps, Pair(q, a)))
  }

  /** `totals` for the pairs `ps` of a set: a key exactly for each answer
      given, holding how often it was given over all questions. */
  ghost predicate TotalsIsCounts(t: Counts, ps: seq<Pair>) {
    && t.Keys == AllAnswerKeysIn(ps)
    && (forall a :: AnswerKey(a) in t ==> t[AnswerKey(a)] == CountAnswer(ps, a))
  }

  /** What `GET /api/stats` promises for the pairs `ps` of a set. */
  ghost predicate IsStatsOf(body: StatsBody, ps: seq<Pair>) {
    ByQuestionIsCounts(body.byQuestion, ps) && TotalsIsCounts(body.totals, ps)
  }

  lemma StatsOfGroups(groups: seq<Group>, ps: seq<Pair>)
    requires IsGroupBy(groups, ps)
    ensures IsStatsOf(StatsBody(TotalsOf(groups), ByQuestionOf(groups)), ps)
  {
    ByQuestionOfGroups(groups, ps);
    TotalsOfGroups(groups, ps);
  }

  lemma ByQuestionOfGroups(groups: seq<Group>, ps: seq<Pair>)
    requires IsGroupBy(groups, ps)
    ensures ByQuestionIsCounts(ByQuestionOf(groups), ps)
  {
    ByQuestionKeys(groups, ps);
    ByQuestionEntryKeys(groups, ps);
    var m := ByQuestionOf(groups);
    forall q, a | q in m && AnswerKey(a) in m[q] ensures m[q][AnswerKey(a)] == Count(ps, Pair(q, a)) {
      ByQuestionCountsAt(groups, ps, q, a);
    }
  }

  lemma ByQuestionKeys(groups: seq<Group>, ps: seq<Pair>)
    requires IsGroupBy(groups, ps)
    ensures ByQuestionOf(groups).Keys == QuestionsIn(ps)
  {
    var m := ByQuestionOf(groups);
    forall q | q in m || q in QuestionsIn(ps) ensures q in m <==> q in QuestionsIn(ps) {
      ByQuestionAt(groups, q, "1");
      GroupKeysAgree(groups, ps, q, "1");
    }
  }

  lemma ByQuestionEntryKeys(groups: seq<Group>, ps: seq<Pair>)
    requires IsGroupBy(groups, ps)
    ensures var m := ByQuestionOf(groups);
      forall q :: q in m ==> m[q].Keys == {"1", "2"} + AnswerKeysIn(ps, q)
  {
    var m := ByQuestionOf(groups);
    forall q | q in m ensures m[q].Keys == {"1", "2"} + AnswerKeysIn(ps, q) {
      forall k | k in m[q] || k in {"1", "2"} + AnswerKeysIn(ps, q)
        ensures k in m[q] <==> k in {"1", "2"} + AnswerKeysIn(ps, q)
      {
        ByQuestionAt(groups, q, k);
        GroupKeysAgree(groups, ps, q, k);
      }
    }
  }

  lemma TotalsOfGroups(groups: seq<Group>, ps: seq<Pair>)
    requires IsGroupBy(groups, ps)
    ensures TotalsIsCounts(TotalsOf(groups), ps)
  {
    var t := TotalsOf(groups);
    forall a | AnswerKey(a) in t ensures t[AnswerKey(a)] == CountAnswer(ps, a) {
      TotalsCountsAt(groups, ps, a);
    }
    forall k | k in t || k in AllAnswerKeysIn(ps)
      ensures k in t <==> k in AllAnswerKeysIn(ps)
    {
      TotalsAt(groups, k);
      GroupKeysAgree(groups, ps, Value.Null, k);
    }
  }

  /** `GET /api/stats?set=...`: 500 when `String(set)` throws or the
      query fails, else the counts of the set's rows. */
  method Stats(log: seq<Row>, setParam: Value, storageFails: bool) returns (r: Response<StatsBody>)
    ensures r.Ok? || r.ServerError?
    ensures r.ServerError? <==> ParseIntOr(setParam, 1).None? || storageFails
    ensures r.Ok? ==> IsStatsOf(r.body, Pairs(log, ParseIntOr(setParam, 1).value))
  {
    var setNo := ParseIntOr(setParam, 1);
    if setNo.None? || storageFails {
      return ServerError;
    }
    var ps := Pairs(log, setNo.value);
    var groups := GroupBy(ps);
    var byQuestion := BuildByQuestion(groups);
    var totals := BuildTotals(groups);
    StatsOfGroups(groups, ps);
    r := Ok(StatsBody(totals, byQuestion));
  }
}

/** The worked example for `GET /api/stats`: question 1 answered 1, 1 and 2,
    question 2 answered 2. */
module StatsExample {
  import opened Json
  import opened Stats

  function ExamplePairs(): seq<Pair> {
    [Pair(Num(1), 1), Pair(Num(1), 1), Pair(Num(1), 2), Pair(Num(2), 2)]
  }

  lemma Keys()
    ensures AnswerKey(1) == "1" && AnswerKey(2) == "2"
  {
  }

  lemma KeySets()
    ensures AllAnswerKeysIn(ExamplePairs()) == {"1", "2"}
    ensures QuestionsIn(ExamplePairs()) == {Num(1), Num(2)}
    ensures AnswerKeysIn(ExamplePairs(), Num(1)) == {"1", "2"}
    ensures AnswerKeysIn(ExamplePairs(), Num(2)) == {"2"}
  {
    Keys();
    var ps := ExamplePairs();
    assert ps[0] in ps && ps[2] in ps && ps[3] in ps;
  }

  lemma Counted()
    ensures CountAnswer(ExamplePairs(), 1) == 2 && CountAnswer(ExamplePairs(), 2) == 2
    ensures Count(ExamplePairs(), Pair(Num(1), 1)) == 2 && Count(ExamplePairs(), Pair(Num(1), 2)) == 1
    ensures Count(ExamplePairs(), Pair(Num(2), 1)) == 0 && Count(ExamplePairs(), Pair(Num(2), 2)) == 1
  {
  }

  /** A `totals` map over answers 1 and 2 only is fixed by their counts. */
  lemma TotalsOfTwo(t: Counts, ps: seq<Pair>)
    requires TotalsIsCounts(t, ps) && AllAnswerKeysIn(ps) == {"1", "2"}
    ensures t == map["1" := CountAnswer(ps, 1), "2" := CountAnswer(ps, 2)]
  {
    Keys();
    assert t[AnswerKey(1)] == CountAnswer(ps, 1);
    assert t[AnswerKey(2)] == CountAnswer(ps, 2);
    TwoKeys(t, CountAnswer(ps, 1), CountAnswer(ps, 2));
  }

  /** A `byQuestion` entry of a question answered only 1 or 2 is fixed by
      its two counts. */
  lemma EntryOfTwo(m: map<Value, Counts>, ps: seq<Pair>, q: Value)
    requires ByQuestionIsCounts(m, ps) && q in QuestionsIn(ps) && AnswerKeysIn(ps, q) <= {"1", "2"}
    ensures q in m && m[q] == map["1" := Count(ps, Pair(q, 1)), "2" := Count(ps, Pair(q, 2))]
  {
    Keys();
    var e := m[q];
    assert e.Keys == {"1", "2"};
    assert e[AnswerKey(1)] == Count(ps, Pair(q, 1));
    assert e[AnswerKey(2)] == Count(ps, Pair(q, 2));
    TwoKeys(e, Count(ps, Pair(q, 1)), Count(ps, Pair(q, 2)));
  }

  lemma TwoKeys(e: Counts, c1: nat, c2: nat)
    requires e.Keys == {"1", "2"} && e["1"] == c1 && e["2"] == c2
    ensures e == map["1" := c1, "2" := c2]
  {
    var f := map["1" := c1, "2" := c2];
    assert f.Keys == {"1", "2"};
  }

  lemma TwoQuestions(m: map<Value, Counts>, x: Counts, y: Counts)
    requires m.Keys == {Num(1), Num(2)} && m[Num(1)] == x && m[Num(2)] == y
    ensures m == map[Num(1) := x, Num(2) := y]
  {
    var f := map[Num(1) := x, Num(2) := y];
    assert f.Keys == {Num(1), Num(2)};
  }

  /** Any body meeting the stats contract for the example is the one shown
      there, zero entry for the unanswered "1" of question 2 included. */
  lemma ExampleBody(body: StatsBody)
    requires IsStatsOf(body, ExamplePairs())
    ensures body.totals == map["1" := 2, "2" := 2]
    ensures body.byQuestion == map[Num(1) := map["1" := 2, "2" := 1], Num(2) := map["1" := 0, "2" := 1]]
  {
    var ps := ExamplePairs();
    KeySets();
    Counted();
    TotalsOfTwo(body.totals, ps);
    var m := body.byQuestion;
    EntryOfTwo(m, ps, Num(1));
    EntryOfTwo(m, ps, Num(2));
    TwoQuestions(m, map["1" := 2, "2" := 1], map["1" := 0, "2" := 1]);
  }
}
