# Opendata survey server, modelled in Dafny

The survey server in `server/index.js` is a small Express application. The
model covers its question store, its answers table and its API endpoints.
What it leaves out (the static frontend, logging, the HTTP layer) is listed
under "Left out". In short:

- It loads numbered question sets from `data/questions1.yml`,
  `data/questions2.yml`, and so on. The scan stops at the first missing file.
  Each question gets a 1-based `id` and its `set` number, and the record's
  own fields take precedence over both.
- It stores yes/no answers (`1` or `2`) in an SQLite table `answers`. The
  table has an autoincrement id, a set id, a question id, the answer and a
  timestamp. At start-up, rows without a set id are moved to set 1.
- It serves five endpoints:
  - `GET /api/questions/random` picks a question of a set at random.
  - `GET /api/questions` lists the questions of a set.
  - `POST /api/answers` validates and stores an answer.
  - `GET /api/answers` returns the newest answers of a set, newest first,
    with a limit.
  - `GET /api/stats` returns the total count per answer and the counts per
    question and answer.

Every query parameter goes through `parseInt(x, 10) || default`. The model
spells out the JavaScript meaning of this:

- leading white space is skipped;
- an optional sign is read;
- the longest digit prefix is taken;
- no digits, or the value `0`, falls back to the default;
- a non-string parameter is first converted with `String(...)`. That
  conversion throws a TypeError for an object carrying its own `toString`
  field (JSON data is never a function). The handler does not catch the
  error, so Express answers 500.

Modules, one file each, in dependency order:

- `Wrappers` (`wrappers.dfy`): `Option`, and `Response`, which is a body, a
  404, a 400 or a 500.
- `Decimal` (`decimal.dfy`): JavaScript's `parseInt` with radix 10, and the
  decimal rendering `String(n)` of an integer.
- `Json` (`json.dfy`): JavaScript values that come from JSON, YAML and query
  strings. Covers truthiness, `String(v)`, and the own enumerable
  properties that object spread copies.
- `Params` (`params.dfy`): the `parseInt(x, 10) || d` idiom.
- `Questions` (`questions.dfy`): the question files, how `loadQuestions`
  builds its table, and the two question endpoints.
- `Answers` (`answers.dfy`): answer rows and body validation, the `set_id`
  backfill, and `GET /api/answers` with SQLite's `WHERE`, `ORDER BY ts
  DESC LIMIT`.
- `Stats` (`stats.dfy`): the `GROUP BY question_id, answer` query, the
  `forEach` that builds `byQuestion` and the `reduce` that builds `totals`
  (both as loops), and `GET /api/stats`. `StatsExample` works one example
  through.
- `Service` (`service.dfy`): the mutable server state as a class. It holds
  the question table, the answers table and the AUTOINCREMENT counter, with
  the start-up sequence, `loadQuestions` as a loop, the backfill, and
  `POST /api/answers`.

## Model

| member | source | states |
|---|---|---|
| Decimal.TrimStart | server/index.js:60 | `parseInt` skips exactly the leading ECMAScript white space: the result is a suffix, all that is dropped is white space, and what is left does not start with it |
| Decimal.DigitPrefix | server/index.js:60 | the digits `parseInt` reads are the longest all-digit prefix |
| Decimal.ParseInt | server/index.js:60 | `parseInt(s, 10)` is NaN (`None`) exactly when no digit follows the white space and the optional sign |
| Decimal.ParseIntDecimal | server/index.js:60 | white space, then the decimal form of `n`, then any non-digit text, parses to `n` |
| Decimal.ParseDecimalString | server/index.js:60 | `parseInt(String(n), 10) == n` for every integer |
| Decimal.NatStringValue | server/index.js:112 | the digits of `String(n)` read back as `n` |
| Decimal.NatString | server/index.js:112 | the digits of a natural number, without leading zeros: the first digit is `0` exactly for 0 |
| Decimal.DecimalString | server/index.js:112 | `String(n)` is non-empty and starts with `-` exactly for a negative `n`, and otherwise with a digit. It has no leading zero, except for 0 itself |
| Decimal.DecimalStringInjective | server/index.js:112 | distinct answers get distinct keys `String(r.answer)` |
| Json.Truthy | server/index.js:70 | no contract of its own. `Answers.Validate` states the effect of `!questionId` that it models |
| Json.ToString | server/index.js:60 | `String(v)` throws (`None`) for an object exactly when it has an own `toString`. Text stays as it is, and a number becomes its decimal form. `Json.ArrayStringThrows` states when an array throws |
| Json.ArrayStringThrows | server/index.js:69 | `String` of an array throws exactly when some element other than undefined or null throws |
| Json.OwnProps | server/index.js:31 | no contract of its own. `Questions.Overlay` and `Questions.LoadedRecord` state what spreading these properties does |
| Json.IndexedProps | server/index.js:31 | the own properties of an array or string are exactly the indices `"0"` to `"n-1"`, each holding its element |
| Params.ParseIntOr | server/index.js:60 | `parseInt(v, 10) \|\| d` fails exactly when `String(v)` throws. Otherwise it is the default when the parse gives NaN or 0, and any other parsed integer as it is. The result is never 0 unless the default is |
| Params.ResolveNonNumeric | server/index.js:60 | a missing, null or boolean parameter, or an object without its own `toString`, selects the default |
| Params.ResolveThrows | server/index.js:69 | an object with its own `toString`, alone or inside an array, makes the conversion throw |
| Params.ResolveNoDigits | server/index.js:60 | text without a leading number selects the default |
| Params.ResolveText | server/index.js:60 | white space, then the canonical decimal form of a number, then any non-digit text selects that number, or the default if it is 0. Other numerals such as `+5` or `007` are covered by `Params.ParseIntOr` |
| Params.ResolveNumber | server/index.js:69 | a JSON number selects itself, or the default if it is 0 |
| Questions.Overlay | server/index.js:31 | `{ id: idx + 1, set: i, ...q }` has the keys of `q` plus `id` and `set`, with `q`'s own values taking precedence |
| Questions.Stamp | server/index.js:31 | `parsed.map(...)` keeps the length, and record `idx` is the overlay of element `idx` |
| Questions.Scan | server/index.js:24-36 | the scan from file `i` only loads files numbered `i` or higher |
| Questions.ScanExactly | server/index.js:24-36 | set `k` is loaded from `i` on exactly when files `i`..`k` all exist and file `k` parsed to an array. Its records are then the stamped elements |
| Questions.Loaded | server/index.js:22-40 | no contract of its own. `Questions.LoadedExactly` characterises it and `Service.SurveyService.LoadQuestions` computes it |
| Questions.LoadedExactly | server/index.js:22-40 | the same characterisation for the table `loadQuestions` builds from file 1 |
| Questions.NothingPastGap | server/index.js:26 | no set numbered after a missing file is ever loaded |
| Questions.BadFileSkipped | server/index.js:27-35 | a file that fails to parse, or is not an array, is skipped without stopping the scan |
| Questions.LoadedRecord | server/index.js:31 | a loaded record keeps the file's own fields and adds `id` and `set` only where the file has none |
| Questions.GapExample | server/index.js:26 | with files 1 and 3 only, only set 1 is loaded |
| Questions.MalformedExample | server/index.js:33-35 | with file 1 unreadable and file 2 an array, only set 2 is loaded |
| Questions.RandomIndex | server/index.js:63 | `Math.floor(Math.random() * len)` of a random value `num/den` in [0, 1) is a valid index, and is the floor of `len * num / den` |
| Questions.PickIsFloor | server/index.js:63 | the record at the floored random index is a floor pick: its index `idx` has `idx <= len * num / den < idx + 1` |
| Questions.RandomQuestion | server/index.js:59-65 | the reply is 500 exactly when `String(set)` throws. Otherwise it is 404 exactly when the set is missing or empty, and else the record at the floored random index |
| Questions.ListQuestions | server/index.js:85-89 | the reply is 500 exactly when `String(set)` throws. Otherwise it is the set's records, or `[]` for a missing set |
| Questions.ListAndPickAgree | server/index.js:85-89 | listing fails exactly when picking fails with 500. A missing set lists as `[]`, a pick is 404 exactly when the listing is empty, and a picked question is always one of the listed ones |
| Answers.Validate | server/index.js:67-72 | the request fails with 500 exactly when `String(set)` throws, before any check. Otherwise the body is rejected with 400 exactly when `questionId` is falsy or `answer` is not strictly 1 or 2. If it is accepted, the answer, the question id and `parseInt(set, 10) \|\| 1` form the submission |
| Answers.NewRow | server/index.js:74-76 | no contract of its own. `Service.SurveyService.SubmitAnswer` states the row it inserts |
| Answers.Migrated | server/index.js:56 | the backfill keeps every row, in order, and sets `set_id` to 1 exactly where it was NULL |
| Answers.MigratedIdempotent | server/index.js:56 | running the backfill at a second start-up changes nothing |
| Answers.InSet | server/index.js:95 | `WHERE set_id = ?` yields only rows of the table in that set, each as often as stored at most |
| Answers.InSetCounts | server/index.js:95 | `WHERE set_id = ?` keeps every row of the set exactly as often as it is stored, and no other row |
| Answers.InsertSpec | server/index.js:95 | inserting into a newest-first list keeps it newest first and adds exactly that row |
| Answers.SortDescending | server/index.js:95 | no contract of its own. `Answers.SortDescendingSpec` states it |
| Answers.SortDescendingSpec | server/index.js:95 | `ORDER BY ts DESC` is newest first and a permutation of its input |
| Answers.SplitDescending | server/index.js:95 | the rows `LIMIT` keeps are newest first and no older than any row it drops |
| Answers.Take | server/index.js:95 | `LIMIT n` keeps the first `n` rows, or all of them when `n` is negative or at least the row count |
| Answers.RecentRows | server/index.js:95 | no contract of its own. `Answers.RecentRowsSpec` states it |
| Answers.RecentRowsSpec | server/index.js:95 | the query's rows are rows of the set, newest first, and all of them that the limit allows (all for a negative limit). They are a sub-multiset, and no dropped row is newer than a kept one |
| Answers.ProjectAll | server/index.js:95 | `SELECT id, question_id, answer, ts` keeps the row count and projects row by row |
| Answers.ProjectedRows | server/index.js:95 | the projected rows meet the endpoint's promise (`IsRecent`). The rows have the right number, are newest first, form a sub-multiset of the set's rows, and no left-out row is newer than a returned one |
| Answers.RecentEntries | server/index.js:95 | every entry the endpoint may return is a row of the set, and they come newest first |
| Answers.EntriesOfRows | server/index.js:95 | projecting newest-first rows drawn from the set gives entries newest first, each a row of the set |
| Answers.NewestFirstExample | server/index.js:95 | with two rows of a set, `LIMIT 1` can only return the newer one |
| Answers.NoRepeatExample | server/index.js:95 | with two rows of a set, `LIMIT 2` returns each exactly once, newer first |
| Answers.RecentAnswers | server/index.js:92-99 | the reply is 500 exactly when `String` of either parameter throws or the query fails. Otherwise the entries are the newest rows of `parseInt(set) \|\| 1`, at most `parseInt(limit) \|\| 1000` of them (`IsRecent`) |
| Answers.InSetNone | server/index.js:95 | a set with no rows selects nothing |
| Answers.RecentOfEmptySet | server/index.js:92-99 | asking for a set nobody answered returns `[]`, not an error |
| Answers.InSetAll | server/index.js:95 | when every row is in the set, `WHERE` keeps them all in order |
| Answers.RecentReturnsAll | server/index.js:95 | a limit at least the row count, or a negative one, returns every row of the log exactly as often as stored (the same multiset), newest first |
| Stats.Pairs | server/index.js:105 | no contract of its own. Its rows are those of `Answers.InSet`, which `Answers.InSetCounts` characterises |
| Stats.ByQuestionOf | server/index.js:109-113 | no contract of its own. `Stats.ByQuestionAt` characterises it and `Stats.BuildByQuestion` computes it |
| Stats.TotalsOf | server/index.js:115-118 | no contract of its own. `Stats.TotalsAt` characterises it and `Stats.BuildTotals` computes it |
| Stats.RemoveAll | server/index.js:105 | removing a pair keeps exactly the other pairs |
| Stats.Distinct | server/index.js:105 | the distinct pairs are duplicate-free and are exactly the pairs that occur |
| Stats.GroupBy | server/index.js:105 | `GROUP BY question_id, answer` with `COUNT(*)` gives one row per occurring pair, carrying its number of occurrences |
| Stats.BuildByQuestion | server/index.js:109-113 | the `forEach` loop computes `ByQuestionOf` of the groups |
| Stats.BuildTotals | server/index.js:115-118 | the `reduce` loop computes `TotalsOf` of the groups |
| Stats.ByQuestionAt | server/index.js:110-113 | after the `forEach`, a question has an entry exactly when a group has it. The entry's keys are `"1"`, `"2"` and its groups' answers, each holding the last such group's count, or 0 |
| Stats.LastCntNoQuestion | server/index.js:110-113 | questions without a group contribute no count |
| Stats.TotalsAt | server/index.js:115-118 | after the `reduce`, an answer key is present exactly when a group has it, and holds the sum of those groups' counts |
| Stats.SumKeyNoAnswer | server/index.js:115-118 | an answer without a group sums to 0 |
| Stats.LastCntFound | server/index.js:112 | with distinct group keys, the entry holds the count of the one group for that pair |
| Stats.LastCntAbsent | server/index.js:111 | a pair with no group keeps the initial 0 |
| Stats.SumKeyIsSumAnswer | server/index.js:116 | summing by key `String(answer)` is summing by answer |
| Stats.CountAbsent | server/index.js:105 | an absent pair counts 0 |
| Stats.CountRemoveOther | server/index.js:105 | removing one pair does not change the count of another |
| Stats.CountAnswerSplit | server/index.js:105 | the answer count splits into one pair's count plus the rest |
| Stats.SumAnswerCounts | server/index.js:105-118 | for a correct grouping, the counts of an answer's groups sum to the number of times that answer occurs |
| Stats.SumAnswerStep | server/index.js:115-118 | one step of that sum |
| Stats.PairsNeedGroups | server/index.js:105 | rows exist only if some group does |
| Stats.DropLastGroup | server/index.js:105 | dropping a group gives a correct grouping of the remaining pairs |
| Stats.GroupKeysAgree | server/index.js:105 | the questions and answer keys seen in the groups are those seen in the rows |
| Stats.GroupIndex | server/index.js:105 | every occurring pair has a group |
| Stats.ByQuestionCountsAt | server/index.js:109-113 | each `byQuestion[q][String(a)]` is the number of rows with question `q` and answer `a` |
| Stats.TotalsCountsAt | server/index.js:115-118 | each `totals[String(a)]` is the number of rows with answer `a` |
| Stats.ByQuestionKeys | server/index.js:109-113 | `byQuestion` has an entry exactly for each question answered in the set |
| Stats.ByQuestionEntryKeys | server/index.js:111-112 | every entry has keys `"1"`, `"2"` and the answers given to that question |
| Stats.ByQuestionOfGroups | server/index.js:109-113 | `byQuestion` matches the counts, whatever order SQLite returns the groups in |
| Stats.TotalsOfGroups | server/index.js:115-118 | `totals` has a key exactly for each answer given, holding how often it was given, whatever the group order |
| Stats.StatsOfGroups | server/index.js:104-119 | both parts of the reply match the counts for any correct query result |
| Stats.Stats | server/index.js:102-122 | the reply is 500 exactly when `String(set)` throws or the query fails. Otherwise the body is the counts of the rows of `parseInt(set) \|\| 1` |
| StatsExample.ExampleBody | server/index.js:102-122 | for question 1 answered 1, 1, 2 and question 2 answered 2, the reply is exactly `totals {"1": 2, "2": 2}` and `byQuestion {1: {"1": 2, "2": 1}, 2: {"1": 0, "2": 1}}` |
| Service.MaxId | server/index.js:48 | the AUTOINCREMENT counter is at least every stored id |
| Service.AppendNext | server/index.js:48 | a row under the next counter value keeps the ids unique, and is larger than every stored id |
| Service.AppendBinary | server/index.js:70-76 | storing a validated answer keeps every stored answer 1 or 2 |
| Service.MigratedIds | server/index.js:56 | the backfill keeps every id |
| Service.SurveyService.constructor | server/index.js:21-57 | the process starts with the full question table, the stored rows after the backfill, and the stored counter |
| Service.SurveyService.LoadQuestions | server/index.js:22-40 | the loop builds exactly `Loaded(dir)`, changes nothing else, and reports "no questions" exactly when the table is empty |
| Service.SurveyService.MigrateLegacyRows | server/index.js:56 | the table becomes `Migrated` of itself, and the id invariant holds |
| Service.SurveyService.SubmitAnswer | server/index.js:67-82 | a throwing `set` is 500 and an invalid body is 400. A failed insert is 500 as well. All three leave the table unchanged. An accepted answer appends exactly one row under the next id, above every stored id, returns that id, keeps ids unique and keeps all answers 1 or 2 |

## Left out

- Express, CORS, body parsing and `app.listen`: the handlers take the parsed
  query values or JSON body as arguments, and the HTTP status of a reply is
  the `Response` constructor.
- The JSON error bodies (`{ error: ... }`) and the `{ ok: true, id }`
  wrapper: the model keeps the status and the id.
- The file system and the YAML parser: the `data/` folder is a finite map from
  file number to either an unreadable file or the value the file parsed to.
  Creating `data/` is left out too.
- `Math.random` is a rational `num/den` in [0, 1), passed as a parameter. The
  model says nothing about the distribution.
- `Date.now()` is a parameter of `SubmitAnswer`.
- SQLite: the engine, its asynchronous callbacks and the `serialize` order
  are left out. A storage error is a boolean parameter. The table is a
  sequence of rows in storage order.
- Answers.SortDescending: SQLite leaves the order of rows with equal `ts`
  unspecified. The model keeps them in storage order and proves only what
  the query promises: newest first, exactly the selected rows.
- Stats.GroupBy: SQLite returns groups in no promised order. The lemmas hold
  for every grouping that satisfies `IsGroupBy`.
- `question_id` stays the JavaScript value the client sent. SQLite's INTEGER
  type affinity is not modelled. Neither is the stringification of
  `byQuestion`'s keys, so two question ids with the same `String(...)` are
  separate entries in the model.
- JavaScript numbers are integers here: fractions, `NaN`, `Infinity`,
  exponent notation and 64-bit float rounding are not modelled. A large
  `parseInt` result keeps its exact value.
- Strings are sequences of characters. Strings with surrogate pairs are not
  modelled UTF-16 unit by unit.
- Query parameters given twice (arrays) or nested (objects) reach `parseInt`
  via `String(...)`, like any other value. How Express makes them is not
  modelled.
- The property order of JavaScript objects is not modelled: records and
  counts are maps.
- A crafted query string such as `?set[toString]=x` can give a parameter
  that is an object with its own `toString`. Then `parseInt` throws, and
  each of the four GET endpoints answers 500. That includes
  `GET /api/questions`, which otherwise never fails. The model answers 500
  for such a value in every handler, as `RandomQuestion`, `ListQuestions`,
  `RecentAnswers` and `Stats` state.
- Stats.Stats: question ids that are names of `Object.prototype` properties
  are not modelled, such as `"__proto__"`, `"toString"` or `"constructor"`.
  `byQuestion[r.question_id]` finds the inherited property, so the reply has
  no entry for such a question. For `"__proto__"` the handler even writes
  the count into `Object.prototype["1"]` or `["2"]`. That skews `totals` (the
  `acc[...] || 0` reads start from the inherited count) and every later
  request in the process. The model reports such a question as an ordinary
  entry with the correct counts.
- Static frontend serving (`server/index.js:124-129`) and console logging are
  left out. `LoadQuestions` returns the "no questions" condition instead of
  writing the warning.
