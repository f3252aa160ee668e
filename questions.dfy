/** The question store: `loadQuestions` and the two question endpoints
    (`GET /api/questions/random`, `GET /api/questions`). */
module Questions {
  import opened Wrappers
  import opened Json
  import opened Params

  /** A question as the API returns it: an object with `id`, `set` and the
      fields its YAML file gave it. */
  type Record = map<string, Value>

  /** Question sets by set number. */
  type QuestionSets = map<int, seq<Record>>

  /** What reading one `questions<i>.yml` gives: an exception thrown by
      `readFileSync` or `yaml.load`, or the parsed document. */
  datatype FileOutcome = Unreadable | Parsed(doc: Value)

  /** The data directory: index `i` is a key exactly when `questions<i>.yml`
      exists. */
  type Directory = map<int, FileOutcome>

  /** `{ id: idx + 1, set: setNo, ...q }`: the computed `id` and `set`, then
      every own property of `q`, which overrides them. */
  function Overlay(q: Value, idx: nat, setNo: int): (r: Record)
    ensures r.Keys == OwnProps(q).Keys + {"id", "set"}
    ensures r["id"] == if "id" in OwnProps(q) then OwnProps(q)["id"] else Num(idx + 1)
    ensures r["set"] == if "set" in OwnProps(q) then OwnProps(q)["set"] else Num(setNo)
    ensures forall k :: k in OwnProps(q) ==> r[k] == OwnProps(q)[k]
  {
    map["id" := Num(idx + 1), "set" := Num(setNo)] + OwnProps(q)
  }

  /** `parsed.map((q, idx) => ({ id: idx + 1, set: i, ...q }))`. */
  function Stamp(items: seq<Value>, setNo: int): (r: seq<Record>)
    ensures |r| == |items|
    ensures forall idx :: 0 <= idx < |r| ==> r[idx] == Overlay(items[idx], idx, setNo)
  {
    seq(|items|, idx requires 0 <= idx < |items| => Overlay(items[idx], idx, setNo))
  }

  /** A file yields a set when it reads and parses to an array. */
  predicate IsArrayFile(f: FileOutcome) {
    f.Parsed? && f.doc.Arr?
  }

  /** The files at index `i` or above. */
  function Above(dir: Directory, i: int): set<int> {
    set k | k in dir.Keys && k >= i
  }

  lemma AboveShrinks(dir: Directory, i: int)
    requires i in dir
    ensures |Above(dir, i + 1)| < |Above(dir, i)|
  {
    assert i !in Above(dir, i + 1);
    assert Above(dir, i) == Above(dir, i + 1) + {i};
  }

  /** The sets the scan loads from index `i` on: it stops at the first missing
      file and passes over a file that is not an array. */
  function Scan(dir: Directory, i: int): (r: QuestionSets)
    ensures forall k :: k in r ==> k >= i
    decreases |Above(dir, i)|
  {
    if i !in dir then map[]
    else
      AboveShrinks(dir, i);
      var later := Scan(dir, i + 1);
      if IsArrayFile(dir[i]) then later[i := Stamp(dir[i].doc.items, i)] else later
  }

  /** One step of the scan at a present index. */
  lemma ScanStep(dir: Directory, i: int)
    requires i in dir
    ensures Scan(dir, i) ==
      if IsArrayFile(dir[i]) then Scan(dir, i + 1)[i := Stamp(dir[i].doc.items, i)] else Scan(dir, i + 1)
  {
  }

  /** The scan ends at a missing index. */
  lemma ScanStops(dir: Directory, i: int)
    requires i !in dir
    ensures Scan(dir, i) == map[]
  {
  }

  /** Moving the entry for `i` from the right operand of `+` to the left. */
  lemma UnionMoves(done: QuestionSets, later: QuestionSets, i: int, records: seq<Record>)
    requires i !in done && i !in later
    ensures done + later[i := records] == done[i := records] + later
  {
    var l := done + later[i := records];
    var r := done[i := records] + later;
    assert l.Keys == r.Keys;
    forall k | k in l
      ensures l[k] == r[k]
    {
    }
  }

  /** The question table `loadQuestions` builds: the scan from index 1. */
  function Loaded(dir: Directory): QuestionSets {
    Scan(dir, 1)
  }

  /** Set `k` is loaded from index `i` on exactly when every file from `i` to
      `k` exists and file `k` parses to an array; it then holds that array's
      stamped records. */
  lemma {:induction false} ScanExactly(dir: Directory, i: int, k: int)
    ensures k in Scan(dir, i) <==>
      i <= k && (forall j :: i <= j <= k ==> j in dir) && IsArrayFile(dir[k])
    ensures k in Scan(dir, i) ==> Scan(dir, i)[k] == Stamp(dir[k].doc.items, k)
    decreases |Above(dir, i)|
  {
    if i in dir {
      AboveShrinks(dir, i);
      ScanExactly(dir, i + 1, k);
      if k > i {
        assert (forall j :: i <= j <= k ==> j in dir) <==> (forall j :: i + 1 <= j <= k ==> j in dir) by {
          if forall j :: i + 1 <= j <= k ==> j in dir {
            forall j | i <= j <= k ensures j in dir {
              if j > i { assert i + 1 <= j <= k; }
            }
          }
        }
      }
    } else if i <= k {
      assert !(forall j :: i <= j <= k ==> j in dir) by { assert i <= i <= k; }
    }
  }

  /** The loaded table, set by set. */
  lemma LoadedExactly(dir: Directory, k: int)
    ensures k in Loaded(dir) <==>
      1 <= k && (forall j :: 1 <= j <= k ==> j in dir) && IsArrayFile(dir[k])
    ensures k in Loaded(dir) ==> Loaded(dir)[k] == Stamp(dir[k].doc.items, k)
  {
    ScanExactly(dir, 1, k);
  }

  /** No set at or beyond the first missing file is loaded. */
  lemma NothingPastGap(dir: Directory, gap: int, k: int)
    requires 1 <= gap <= k && gap !in dir
    ensures k !in Loaded(dir)
  {
    LoadedExactly(dir, k);
    assert !(forall j :: 1 <= j <= k ==> j in dir) by {
      assert 1 <= gap <= k && gap !in dir;
    }
  }

  /** A file that throws or is not an array leaves its own set absent, but
      the scan goes on: the next set still loads. */
  lemma BadFileSkipped(dir: Directory, k: int)
    requires 1 <= k && forall j :: 1 <= j <= k + 1 ==> j in dir
    requires !IsArrayFile(dir[k]) && IsArrayFile(dir[k + 1])
    ensures k !in Loaded(dir) && k + 1 in Loaded(dir)
  {
    LoadedExactly(dir, k);
    LoadedExactly(dir, k + 1);
  }

  /** Every loaded record carries its position as `id` and its set number as
      `set`, unless the file gave it those fields itself. */
  lemma LoadedRecord(dir: Directory, k: int, idx: int)
    requires 1 <= k && (forall j :: 1 <= j <= k ==> j in dir) && IsArrayFile(dir[k])
    requires 0 <= idx < |dir[k].doc.items|
    ensures k in Loaded(dir) && idx < |Loaded(dir)[k]|
    ensures var q := dir[k].doc.items[idx]; var r := Loaded(dir)[k][idx];
      && r.Keys == OwnProps(q).Keys + {"id", "set"}
      && r["id"] == (if "id" in OwnProps(q) then OwnProps(q)["id"] else Num(idx + 1))
      && r["set"] == (if "set" in OwnProps(q) then OwnProps(q)["set"] else Num(k))
      && forall f :: f in OwnProps(q) ==> r[f] == OwnProps(q)[f]
  {
    LoadedExactly(dir, k);
  }

  /** Files 1 and 3 present, 2 missing: only set 1 is loaded. */
  lemma GapExample(a: seq<Value>, c: seq<Value>)
    ensures Loaded(map[1 := Parsed(Arr(a)), 3 := Parsed(Arr(c))]).Keys == {1}
  {
    var dir := map[1 := Parsed(Arr(a)), 3 := Parsed(Arr(c))];
    LoadedExactly(dir, 1);
    forall k | k in Loaded(dir) ensures k == 1 {
      LoadedExactly(dir, k);
      if k >= 2 { NothingPastGap(dir, 2, k); }
    }
  }

  /** A malformed file 1 does not keep a valid file 2 from loading. */
  lemma MalformedExample(b: seq<Value>)
    ensures Loaded(map[1 := Unreadable, 2 := Parsed(Arr(b))]) == map[2 := Stamp(b, 2)]
  {
    var dir := map[1 := Unreadable, 2 := Parsed(Arr(b))];
    assert Scan(dir, 3) == map[];
    assert Scan(dir, 2) == map[2 := Stamp(b, 2)];
  }

  /** `Math.floor(Math.random() * len)` for a random number `num / den` in [0, 1). */
  function RandomIndex(len: nat, num: nat, den: nat): (idx: nat)
    requires len > 0 && num < den
    ensures idx < len
    ensures idx * den <= num * len < (idx + 1) * den
  {
    var x := num * len;
    var idx := x / den;
    MulStrict(num, den, len);
    DivBounds(x, den);
    assert idx < len by {
      if idx >= len {
        MulMono(len, idx, den);
        assert false;
      }
    }
    idx
  }

  lemma MulStrict(a: nat, b: nat, c: nat)
    requires a < b && c > 0
    ensures a * c < b * c
  {
  }

  lemma MulMono(a: nat, b: nat, c: nat)
    requires a <= b
    ensures a * c <= b * c
  {
  }

  lemma DivBounds(x: nat, d: nat)
    requires d > 0
    ensures (x / d) * d <= x < (x / d + 1) * d
  {
    assert x == (x / d) * d + x % d;
  }

  /** `q` is the record of `qs` at `Math.floor(num / den * |qs|)`. */
  ghost predicate IsFloorPick(qs: seq<Record>, num: nat, den: nat, q: Record) {
    exists idx :: 0 <= idx < |qs| && idx * den <= num * |qs| < (idx + 1) * den && q == qs[idx]
  }

  lemma PickIsFloor(qs: seq<Record>, num: nat, den: nat)
    requires |qs| > 0 && num < den
    ensures IsFloorPick(qs, num, den, qs[RandomIndex(|qs|, num, den)])
  {
    var idx := RandomIndex(|qs|, num, den);
    assert 0 <= idx < |qs| && idx * den <= num * |qs| < (idx + 1) * den;
  }

  /** `GET /api/questions/random?set=...`: 500 when `String(set)` throws,
      404 when the set is missing or empty, else the record at the random
      index. */
  function RandomQuestion(sets: QuestionSets, setParam: Value, num: nat, den: nat): (r: Response<Record>)
    requires num < den
    ensures r.ServerError? <==> ParseIntOr(setParam, 1).None?
    ensures r.Ok? || r.NotFound? || r.ServerError?
    ensures ParseIntOr(setParam, 1).Some? ==> var s := ParseIntOr(setParam, 1).value;
      && (r.NotFound? <==> s !in sets || sets[s] == [])
      && (r.Ok? ==> IsFloorPick(sets[s], num, den, r.body))
  {
    match ParseIntOr(setParam, 1)
    case None => ServerError
    case Some(s) =>
      if s !in sets || |sets[s]| == 0 then NotFound
      else
        PickIsFloor(sets[s], num, den);
        Ok(sets[s][RandomIndex(|sets[s]|, num, den)])
  }

  /** `GET /api/questions?set=...`: 500 when `String(set)` throws, else the
      set's records, or none. */
  function ListQuestions(sets: QuestionSets, setParam: Value): (r: Response<seq<Record>>)
    ensures r.ServerError? <==> ParseIntOr(setParam, 1).None?
    ensures r.Ok? || r.ServerError?
    ensures r.Ok? ==> var s := ParseIntOr(setParam, 1).value;
      (s in sets ==> r.body == sets[s]) && (s !in sets ==> r.body == [])
  {
    match ParseIntOr(setParam, 1)
    case None => ServerError
    case Some(s) => Ok(if s in sets then sets[s] else [])
  }

  /** Listing fails only where picking fails too, on a throwing `set`; a
      missing set lists as empty, where picking from it is a 404; and a pick
      is always one of the listed records. */
  lemma ListAndPickAgree(sets: QuestionSets, setParam: Value, num: nat, den: nat)
    requires num < den
    ensures RandomQuestion(sets, setParam, num, den).ServerError? <==> ListQuestions(sets, setParam).ServerError?
    ensures ParseIntOr(setParam, 1).Some? && ParseIntOr(setParam, 1).value !in sets ==>
      ListQuestions(sets, setParam) == Ok([])
    ensures ListQuestions(sets, setParam).Ok? ==>
      (RandomQuestion(sets, setParam, num, den).NotFound? <==> ListQuestions(sets, setParam).body == [])
    ensures RandomQuestion(sets, setParam, num, den).Ok? ==>
      ListQuestions(sets, setParam).Ok? &&
      RandomQuestion(sets, setParam, num, den).body in ListQuestions(sets, setParam).body
  {
    var p := ParseIntOr(setParam, 1);
    if p.Some? && p.value in sets && |sets[p.value]| > 0 {
      var s := p.value;
      var idx := RandomIndex(|sets[s]|, num, den);
      assert RandomQuestion(sets, setParam, num, den) == Ok(sets[s][idx]);
      assert ListQuestions(sets, setParam) == Ok(sets[s]);
    }
  }
}
