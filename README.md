# Timetable generator: a verified model

This project models the core of a college timetable generator in Dafny. The
generator places every course in a (teacher, room, time slot) triple so that no
teacher, room or student is booked twice in the same slot. The browser client
stores the collections it fetches, renders them as tables and shows the
generated timetable.

The project has three modules:

- `Options` (options.dfy) is the `Option` datatype. It stands for a JSON
  `null`, a failed fetch, or an empty search result.
- `Solver` (solver.dfy) models `generate_the_perfect_timetable`:
  - the decision keys, built by four nested loops;
  - the four constraint families, as predicates over the set of keys whose
    variable is 1;
  - an executable checker, proved equivalent to the validity predicate;
  - a complete backtracking search that takes the place of the CP-SAT solver;
  - the read-back loop, and the error result.
- `Frontend` (frontend.dfy) models the pure parts of the client:
  - collection tables;
  - the timetable view, with its id-to-name lookup;
  - numeric form coercion;
  - the "added" notification text;
  - `AppState`, a class that holds the fetched collections and the last
    generated schedule.

The solver's inputs are reduced to what it reads: the ids of courses,
teachers, rooms and time slots, and each student's enrolled course ids. The
precondition `Solver.WellFormed` states what the data layer guarantees:
- ids are distinct, since they are primary keys;
- a student's enrolled ids are distinct, since the association table has a
  composite primary key (models.py:6-9);
- every enrolled id is a course id whenever there is at least one teacher,
  one room and one slot. Otherwise the lookup at solver.py:31 raises a
  `KeyError`. That lookup runs once per slot, teacher and room
  (solver.py:30-31), so when one of these lists is empty an unknown enrolled
  id is never looked up, and such inputs stay within the model.

## Model

| member | source | states |
|---|---|---|
| Solver.BuildDecisionKeys | solver.py:8-15 | the four nested loops produce the keys course by course, then teacher, room and slot, in input order (the reference function `DecisionKeys`) |
| Solver.DecisionKeysAreInputTuples | solver.py:8-15 | a tuple is a decision key exactly when its course, teacher, room and slot ids are all among the inputs, and no key is created twice |
| Solver.CheckSchedule | solver.py:18-33 | the executable checker accepts a list of entries exactly when it is a valid timetable: every entry is a declared key, every course is placed, no course is placed twice, and no two entries share a teacher, a room, or an enrolled student in the same slot |
| Solver.IsClash | solver.py:21-33 | two entries clash exactly when they share a slot and a teacher, a room, or a student enrolled in both courses |
| Solver.ValidIsFeasible | solver.py:18-33 | the entries of a valid timetable, taken as the variables set to 1, satisfy every ExactlyOne and AtMostOne constraint the model adds; a student constraint exists only when its variable list is non-empty |
| Solver.ClashingChosenCoincide | solver.py:21-33 | in an assignment satisfying the constraints, two chosen keys that share a teacher, room or student in one slot are the same key |
| Solver.ExtractSchedule | solver.py:40-45 | the read-back loop keeps, in key order, exactly the keys whose variable is 1 |
| Solver.FeasibleReadBack | solver.py:40-45 | reading back any assignment that satisfies the constraints gives a valid timetable with one entry per course, in course order, whose entries are exactly the chosen keys |
| Solver.ReadBackPlaced | solver.py:40-45 | the read-back of an assignment satisfying the constraints places every course, in order, on a declared key, with no two entries clashing |
| Solver.ReadBackMembers | solver.py:40-45 | the read-back of an assignment satisfying the constraints contains every key whose variable is 1 |
| Solver.ReadBackInOrder | solver.py:40-45 | the read-back of a feasible assignment lists the courses in input order, each with its single chosen key |
| Solver.SelectedConcat | solver.py:42-44 | the read-back of a concatenation of key lists is the concatenation of their read-backs |
| Solver.ReadBackOfValid | solver.py:40-45 | a valid timetable in course order is recovered exactly by reading back its own entries (the read-back is a left inverse of the set of entries) |
| Solver.ValidScheduleLength | solver.py:18-19 | a valid timetable has exactly one entry per course |
| Solver.KeysFacts | solver.py:8-15 | membership in the nested-loop key list is the product of the four input lists, and distinct inputs give distinct keys |
| Solver.Search | solver.py:36-37 | the search returns a conflict-free completion of the partial placement when one exists, and reports none only when no completion exists |
| Solver.ExtendableThroughKey | solver.py:36-37 | any completion of a partial placement places the next course on one of its own decision keys, so trying those keys in turn misses no solution |
| Solver.ExtendableIsPlaced | solver.py:36-37 | a placement with a clash can never be completed, so the search may prune it |
| Solver.Fits | solver.py:21-33 | one more entry can be placed exactly when it clashes with no entry already placed |
| Solver.GenerateTimetable | solver.py:4-47 | the result is a schedule that is a valid timetable, in course order, and is the read-back of a feasible assignment; or it is the error "Could not find a valid timetable with the given constraints.", which happens exactly when no assignment satisfies the constraints, and then no valid timetable exists |
| Solver.FeasibleNeedsResources | solver.py:18-19 | when there is a course, a satisfying assignment exists only if there is at least one teacher, one room and one slot |
| Solver.NoResourcesNoTimetable | solver.py:18-19 | with at least one course but no teacher, room or slot, no assignment is feasible and no timetable is valid, so the error is returned |
| Frontend.OrZero | frontend/script.js:54-55 | a missing credit count shows as 0; a present one shows as itself |
| Frontend.OrNotAvailable | frontend/script.js:60-63 | a missing or empty text shows as "N/A"; any other text shows as itself |
| Frontend.RowCells | frontend/script.js:51-68 | a course row shows name, theory, practical and their sum; a teacher row shows name, expertise and email; a room row shows name, capacity and type; a student group row shows name and size |
| Frontend.Table | frontend/script.js:44-71 | an empty collection shows a single placeholder row; otherwise there is one row per record, in order |
| Frontend.TableCarriesIds | frontend/script.js:69-70 | the table's rows carry exactly the records' ids, in order, and each delete button carries its own row's id |
| Frontend.FindFirstMatch | frontend/script.js:85 | `find` returns the first record with the id, and nothing exactly when no record has it |
| Frontend.NameByIdFirstMatch | frontend/script.js:85 | the name is that of the first record with the id; it is "ID <id>" when no record has the id or the found name is empty |
| Frontend.ViewOf | frontend/script.js:75-98 | an error record with a message shows that message; one with an empty message is not caught by the error test and throws when iterated; a schedule shows one row per entry, with course, teacher and room names looked up and the slot id |
| Frontend.ViewOfOutcome | frontend/script.js:79-93 | the generator's error shows as its message; a schedule shows as a table with one row per entry |
| Frontend.AppState.RenderTimetable | frontend/script.js:85-96 | the row-by-row loop builds exactly the view `ViewOf` describes from the loaded collections |
| Frontend.DecimalRoundTrip | frontend/script.js:144 | parsing the decimal text of an integer gives back that integer |
| Frontend.CoerceNumericFields | frontend/script.js:143-145 | every field keeps its key; the four numeric fields, when filled in, become their parsed integer; every other field and every empty field keeps its text |
| Frontend.SuccessLabel | frontend/script.js:149 | the label is the collection name with its first letter upper-cased and its last character dropped |
| Frontend.SuccessLabelExamples | frontend/script.js:149 | the labels of the four collections are "Course", "Facult", "Room" and "Student" |
| Frontend.AppState.constructor | frontend/script.js:7-13 | the client starts with four empty collections and an empty generated schedule, each slot holding records of its own kind |
| Frontend.AppState.InitDataFor | frontend/script.js:306-313 | a fetched collection replaces its own slot and renders its table; a failed fetch changes nothing; other slots and the generated schedule are unchanged; every slot keeps records of its own kind |
| Frontend.AppState.ShowGenerated | frontend/script.js:184-189 | a received response becomes the stored generated schedule and is rendered; a failed request keeps the stored schedule and renders nothing; the collections are unchanged |
| Frontend.NameById | frontend/script.js:85 | the shown name is never empty: an empty or missing name falls back to "ID <id>" |
| Frontend.AddedMessage | frontend/script.js:149 | the toast is the success label followed by " added!", starting with the collection name's first letter upper-cased |
| Frontend.ParseInt | frontend/script.js:144 | integer text with a leading minus parses to a value at most 0; text without one parses to a value at least 0 |
| Frontend.Decimal | frontend/script.js:85 | an integer prints as integer text, with a leading minus exactly when it is negative |

## Left out

- Solver.Search: the CP-SAT solver itself is not modelled. A complete
  backtracking search over each course's decision keys takes its place. The
  model proves what any correct solver must return, but which feasible
  timetable CP-SAT picks, its time limits, and its `UNKNOWN`/`MODEL_INVALID`
  statuses are not captured.
- Solver.WellFormed: duplicate ids and duplicate enrolments are excluded,
  because the data layer's keys rule them out. Enrolments in unknown courses
  are excluded only when teachers, rooms and slots are all non-empty, since
  only then does the lookup at solver.py:31 run and raise a `KeyError`.
- Solver: records are reduced to their ids. The solver reads only `id` and
  `enrolled_course_ids`, and names, credits and capacities do not affect it.
- main.py is not part of this model. It holds the HTTP endpoints and the
  database access, and its generate endpoint does not call the solver.
- Frontend.CoerceNumericFields: the numeric fields must hold integer text (an
  optional minus sign and digits). `parseInt` on text with a non-digit suffix,
  leading spaces, or no digits at all (giving `NaN`) is not modelled.
- Frontend.UpperCase: only ASCII letters are upper-cased. `toUpperCase` on
  other characters, and on characters whose upper case is longer, is not
  modelled.
- Frontend.ViewOf: an error record with an empty message is modelled as the
  thrown `TypeError` (`TypeErrorThrown`). The message of that exception is not
  modelled.
- Frontend: HTTP requests (`fetch`), the DOM, event listeners, the CSV
  upload, the theme stored in `localStorage`, toast timers, `confirm`, and the
  concurrency of `Promise.all` in `initData` are not modelled. Fetched data and
  responses are parameters.
- Frontend.AppState.InitDataFor: a table's layout is chosen by the record's
  kind, while the client chooses it by collection name. The two agree because
  the backend answers each collection's endpoint with records of that kind, so
  fetched data is required to be of its collection's kind (`OfKind`). A
  collection holding records of another kind is not modelled.
- Frontend: the HTML markup is reduced to rows of cells. The table's column
  count (`colspan`), styling and icons are not modelled.
