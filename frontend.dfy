/** The browser client's pure rendering and form logic: table rows for the four
    collections, the generated-timetable view with its id-to-name lookups, the
    coercion of numeric form fields, the "added" notification text, and the
    client state that each fetch updates. DOM access and HTTP calls are outside
    the model; their inputs and outputs are parameters and results here. */
module Frontend {
  import opened Options
  import Solver

  /** A record as the backend returns it. Nullable fields are options; the
      collection a table shows determines which kind of record it holds. */
  datatype Record =
    | Course(id: int, name: string, theoryCredits: Option<int>, practicalCredits: Option<int>)
    | Teacher(id: int, name: string, expertise: Option<string>, email: Option<string>)
    | Room(id: int, name: string, capacity: int, roomType: Option<string>)
    | StudentGroup(id: int, name: string, size: int)

  datatype Collection = Courses | Faculty | Rooms | Students

  /** The backend answers each collection's endpoint with records of that
      collection's kind, so the table layout chosen by collection name and the
      one chosen by record kind agree. */
  predicate OfKind(c: Collection, data: seq<Record>) {
    forall i :: 0 <= i < |data| ==> IsKind(c, data[i])
  }

  predicate IsKind(c: Collection, r: Record) {
    match c
    case Courses => r.Course?
    case Faculty => r.Teacher?
    case Rooms => r.Room?
    case Students => r.StudentGroup?
  }

  function CollectionName(c: Collection): string {
    match c
    case Courses => "courses"
    case Faculty => "faculty"
    case Rooms => "rooms"
    case Students => "students"
  }

  // ---------------------------------------------------------------------------
  // Integers as text

  predicate IsDigit(ch: char) {
    '0' <= ch <= '9'
  }

  predicate AllDigits(s: string) {
    forall i :: 0 <= i < |s| ==> IsDigit(s[i])
  }

  /** Text that parseInt reads completely in base 10: an optional minus sign
      followed by at least one digit. */
  predicate IsIntegerText(s: string) {
    || (|s| >= 1 && AllDigits(s))
    || (|s| >= 2 && s[0] == '-' && AllDigits(s[1..]))
  }

  function DigitChar(d: nat): (ch: char)
    requires d < 10
    ensures IsDigit(ch) && ch as int - '0' as int == d
  {
    ('0' as int + d) as char
  }

  /** The base-10 digits of n, as template interpolation prints a non-negative number. */
  function Digits(n: nat): (s: string)
    ensures |s| >= 1 && AllDigits(s)
    decreases n
  {
    if n < 10 then [DigitChar(n)] else Digits(n / 10) + [DigitChar(n % 10)]
  }

  /** How template interpolation prints an integer. */
  function Decimal(n: int): (s: string)
    ensures IsIntegerText(s)
    ensures s[0] == '-' <==> n < 0
  {
    if n < 0 then "-" + Digits(-n) else Digits(n)
  }

  function DigitsValue(s: string): nat
    requires AllDigits(s)
    decreases |s|
  {
    if s == [] then 0 else DigitsValue(s[..|s| - 1]) * 10 + (s[|s| - 1] as int - '0' as int)
  }

  /** parseInt(s, 10) on integer text. */
  function ParseInt(s: string): (n: int)
    requires IsIntegerText(s)
    ensures s[0] == '-' ==> n <= 0
    ensures s[0] != '-' ==> n >= 0
  {
    if s[0] == '-' then -(DigitsValue(s[1..]) as int) else DigitsValue(s)
  }

  lemma {:induction false} DigitsRoundTrip(n: nat)
    ensures DigitsValue(Digits(n)) == n
    decreases n
  {
    if n >= 10 {
      DigitsRoundTrip(n / 10);
      var s := Digits(n);
      assert s[..|s| - 1] == Digits(n / 10);
    }
  }

  /** Parsing the printed form of an integer gives the integer back. */
  lemma DecimalRoundTrip(n: int)
    ensures ParseInt(Decimal(n)) == n
  {
    if n < 0 {
      DigitsRoundTrip(-n);
      assert Decimal(n)[1..] == Digits(-n);
    } else {
      DigitsRoundTrip(n);
    }
  }

  // ---------------------------------------------------------------------------
  // Collection tables

  datatype Cell = Text(text: string) | Number(value: int)

  /** A table row: the placeholder shown for an empty collection, or a record's
      cells with the record id on the row and on its delete button. */
  datatype Row = Placeholder(message: string) | DataRow(id: int, cells: seq<Cell>, deleteId: int)

  const NoRecords := "No records found. Add one above."
  const NotAvailable := "N/A"

  /** `value || 0`: a missing credit count shows as 0 (a 0 is falsy and also
      shows as 0). */
  function OrZero(v: Option<int>): (n: int)
    ensures v.None? ==> n == 0
    ensures v.Some? ==> n == v.value
  {
    match v
    case None => 0
    case Some(x) => x
  }

  /** `value || 'N/A'`: a missing or empty text shows as "N/A". */
  function OrNotAvailable(v: Option<string>): (s: string)
    ensures s != ""
    ensures v.Some? && v.value != "" ==> s == v.value
    ensures v.None? || v.value == "" ==> s == NotAvailable
  {
    match v
    case None => NotAvailable
    case Some(x) => if x != "" then x else NotAvailable
  }

  /** The cells of one record's row, by kind of record. */
  function RowCells(r: Record): (cells: seq<Cell>)
    ensures |cells| >= 2 && cells[0] == Text(r.name)
    ensures r.Course? ==> (
      && |cells| == 4
      && cells[1] == Number(OrZero(r.theoryCredits))
      && cells[2] == Number(OrZero(r.practicalCredits))
      && cells[3] == Number(cells[1].value + cells[2].value))
    ensures r.Teacher? ==> |cells| == 3 && cells[1..] == [Text(OrNotAvailable(r.expertise)), Text(OrNotAvailable(r.email))]
    ensures r.Room? ==> |cells| == 3 && cells[1..] == [Number(r.capacity), Text(OrNotAvailable(r.roomType))]
    ensures r.StudentGroup? ==> |cells| == 2 && cells[1] == Number(r.size)
    ensures forall i :: 0 < i < |cells| && cells[i].Text? ==> cells[i].text != ""
  {
    match r
    case Course(_, name, theory, practical) =>
      var t, p := OrZero(theory), OrZero(practical);
      [Text(name), Number(t), Number(p), Number(t + p)]
    case Teacher(_, name, expertise, email) =>
      [Text(name), Text(OrNotAvailable(expertise)), Text(OrNotAvailable(email))]
    case Room(_, name, capacity, roomType) =>
      [Text(name), Number(capacity), Text(OrNotAvailable(roomType))]
    case StudentGroup(_, name, size) =>
      [Text(name), Number(size)]
  }

  function RowOf(r: Record): Row {
    DataRow(r.id, RowCells(r), r.id)
  }

  /** The rows of a collection table. */
  function Table(data: seq<Record>): (rows: seq<Row>)
    ensures data == [] ==> rows == [Placeholder(NoRecords)]
    ensures data != [] ==> |rows| == |data| && forall i :: 0 <= i < |data| ==> rows[i] == RowOf(data[i])
  {
    if data == [] then [Placeholder(NoRecords)] else seq(|data|, i requires 0 <= i < |data| => RowOf(data[i]))
  }

  /** The ids on a table's rows, in order. */
  function RowIds(rows: seq<Row>): seq<int>
    decreases |rows|
  {
    if rows == [] then []
    else RowIds(rows[..|rows| - 1]) + (if rows[|rows| - 1].DataRow? then [rows[|rows| - 1].id] else [])
  }

  function Ids(data: seq<Record>): seq<int>
    decreases |data|
  {
    if data == [] then [] else Ids(data[..|data| - 1]) + [data[|data| - 1].id]
  }

  /** Data rows that carry the records' ids one for one list exactly those ids. */
  lemma {:induction false} RowIdsMatch(rows: seq<Row>, data: seq<Record>)
    requires |rows| == |data|
    requires forall i :: 0 <= i < |data| ==> rows[i].DataRow? && rows[i].id == data[i].id
    ensures RowIds(rows) == Ids(data)
    decreases |data|
  {
    if data != [] {
      var n := |data| - 1;
      RowIdsMatch(rows[..n], data[..n]);
    }
  }

  /** A table carries exactly the records' ids, in input order, and every
      delete button the id of its own row. */
  lemma TableCarriesIds(data: seq<Record>)
    ensures RowIds(Table(data)) == Ids(data)
    ensures forall i :: 0 <= i < |Table(data)| && Table(data)[i].DataRow? ==> Table(data)[i].deleteId == Table(data)[i].id
  {
    if data == [] {
      assert Table(data)[..0] == [];
    } else {
      RowIdsMatch(Table(data), data);
    }
  }

  // ---------------------------------------------------------------------------
  // The generated timetable

  /** The generator's response as the client receives it. */
  datatype Response = ErrorRecord(error: string) | ScheduleList(entries: seq<Solver.Entry>)

  function ResponseOf(o: Solver.Outcome): Response {
    match o
    case Schedule(entries) => ScheduleList(entries)
    case Error(message) => ErrorRecord(message)
  }

  datatype TimetableRow = TimetableRow(course: string, teacher: string, room: string, timeSlotId: int)

  /** What the timetable area shows. An error record whose message is empty is
      not recognised as an error, and iterating over it as a list throws. */
  datatype View = ErrorView(message: string) | TimetableView(rows: seq<TimetableRow>) | TypeErrorThrown

  /** `list.find(d => d.id === id)`: the first record with the id, if any. */
  function Find(list: seq<Record>, id: int): Option<Record>
    decreases |list|
  {
    if list == [] then None
    else if list[0].id == id then Some(list[0])
    else Find(list[1..], id)
  }

  /** Find yields the first record carrying the id, and nothing exactly when no
      record carries it. */
  lemma {:induction false} FindFirstMatch(list: seq<Record>, id: int)
    ensures Find(list, id).None? <==> forall j :: 0 <= j < |list| ==> list[j].id != id
    ensures forall i :: 0 <= i < |list| && list[i].id == id && (forall j :: 0 <= j < i ==> list[j].id != id) ==>
      Find(list, id) == Some(list[i])
    decreases |list|
  {
    if list != [] {
      FindFirstMatch(list[1..], id);
      if list[0].id != id {
        forall i | 1 <= i < |list| && list[i].id == id && (forall j :: 0 <= j < i ==> list[j].id != id)
          ensures Find(list, id) == Some(list[i])
        {
          assert list[1..][i - 1] == list[i];
          forall j | 0 <= j < i - 1 ensures list[1..][j].id != id {
            assert list[1..][j] == list[j + 1];
          }
        }
        forall j | 0 <= j < |list[1..]| ensures list[1..][j] == list[j + 1] {
        }
      }
    }
  }

  function Fallback(id: int): string {
    "ID " + Decimal(id)
  }

  /** `list.find(d => d.id === id)?.name || "ID " + id`. */
  function NameById(list: seq<Record>, id: int): (name: string)
    ensures name != ""
  {
    match Find(list, id)
    case Some(d) => if d.name != "" then d.name else Fallback(id)
    case None => Fallback(id)
  }

  /** The looked-up name is that of the first record with the id; it is
      "ID <id>" when there is none or its name is empty. */
  lemma NameByIdFirstMatch(list: seq<Record>, id: int)
    ensures forall i :: 0 <= i < |list| && list[i].id == id && (forall j :: 0 <= j < i ==> list[j].id != id) ==>
      NameById(list, id) == if list[i].name != "" then list[i].name else Fallback(id)
    ensures (forall i :: 0 <= i < |list| ==> list[i].id != id) ==> NameById(list, id) == Fallback(id)
  {
    FindFirstMatch(list, id);
  }

  function TimetableRowOf(courses: seq<Record>, faculty: seq<Record>, rooms: seq<Record>, e: Solver.Entry): TimetableRow {
    TimetableRow(NameById(courses, e.courseId), NameById(faculty, e.teacherId), NameById(rooms, e.roomId), e.timeSlotId)
  }

  /** One timetable row per schedule entry, in schedule order. */
  function TimetableRows(courses: seq<Record>, faculty: seq<Record>, rooms: seq<Record>, entries: seq<Solver.Entry>): (rows: seq<TimetableRow>)
    ensures |rows| == |entries|
    ensures forall i :: 0 <= i < |entries| ==> rows[i] == TimetableRowOf(courses, faculty, rooms, entries[i])
  {
    seq(|entries|, i requires 0 <= i < |entries| => TimetableRowOf(courses, faculty, rooms, entries[i]))
  }

  /** What the timetable area shows for a response, given the loaded collections. */
  function ViewOf(courses: seq<Record>, faculty: seq<Record>, rooms: seq<Record>, response: Response): (view: View)
    ensures response.ErrorRecord? && response.error != "" ==> view == ErrorView(response.error)
    ensures response.ErrorRecord? && response.error == "" ==> view == TypeErrorThrown
    ensures response.ScheduleList? ==> (
      && view.TimetableView?
      && |view.rows| == |response.entries|
      && forall i :: 0 <= i < |response.entries| ==> (
           && view.rows[i].course == NameById(courses, response.entries[i].courseId)
           && view.rows[i].teacher == NameById(faculty, response.entries[i].teacherId)
           && view.rows[i].room == NameById(rooms, response.entries[i].roomId)
           && view.rows[i].timeSlotId == response.entries[i].timeSlotId))
  {
    match response
    case ErrorRecord(message) =>
      if message != "" then ErrorView(message) else TypeErrorThrown
    case ScheduleList(entries) =>
      TimetableView(TimetableRows(courses, faculty, rooms, entries))
  }

  /** The generator's error record is shown as its message; a schedule as one row
      per entry. */
  lemma ViewOfOutcome(courses: seq<Record>, faculty: seq<Record>, rooms: seq<Record>, o: Solver.Outcome)
    requires o.Error? ==> o.error == Solver.NoTimetable
    ensures o.Error? ==> ViewOf(courses, faculty, rooms, ResponseOf(o)) == ErrorView(Solver.NoTimetable)
    ensures o.Schedule? ==> (
      && ViewOf(courses, faculty, rooms, ResponseOf(o)).TimetableView?
      && |ViewOf(courses, faculty, rooms, ResponseOf(o)).rows| == |o.entries|)
  {
  }

  // ---------------------------------------------------------------------------
  // Form submission

  /** A form field's value: a string, or a number after coercion. */
  datatype FormValue = FormText(text: string) | FormNumber(number: int)

  const NumericFields: seq<string> := ["theory_credits", "practical_credits", "capacity", "size"]

  /** Numeric form fields hold integer text when they are filled in. */
  predicate NumericFieldsAreIntegers(entries: map<string, string>) {
    forall k :: k in entries && k in NumericFields && entries[k] != "" ==> IsIntegerText(entries[k])
  }

  /** The value a form field has after coercion. */
  function Coerced(key: string, value: string): FormValue
    requires key in NumericFields && value != "" ==> IsIntegerText(value)
  {
    if key in NumericFields && value != "" then FormNumber(ParseInt(value)) else FormText(value)
  }

  /** Rewrites each numeric field that is present and non-empty to its parsed
      value; every other field keeps its text. */
  method CoerceNumericFields(entries: map<string, string>) returns (data: map<string, FormValue>)
    requires NumericFieldsAreIntegers(entries)
    ensures data.Keys == entries.Keys
    ensures forall k :: k in entries && k !in NumericFields ==> data[k] == FormText(entries[k])
    ensures forall k :: k in entries && entries[k] == "" ==> data[k] == FormText("")
    ensures forall k :: k in entries && k in NumericFields && entries[k] != "" ==>
      data[k] == FormNumber(ParseInt(entries[k]))
  {
    data := map k | k in entries :: FormText(entries[k]);
    for i := 0 to |NumericFields|
      invariant data.Keys == entries.Keys
      invariant forall k :: k in entries ==>
        data[k] == if k in NumericFields[..i] && entries[k] != "" then FormNumber(ParseInt(entries[k])) else FormText(entries[k])
    {
      var key := NumericFields[i];
      if key in data && data[key] != FormText("") {
        data := data[key := FormNumber(ParseInt(data[key].text))];
      }
    }
    assert NumericFields[..|NumericFields|] == NumericFields;
  }

  /** String.prototype.toUpperCase on one character, for ASCII letters. */
  function UpperCase(ch: char): char {
    if 'a' <= ch <= 'z' then (ch as int - 'a' as int + 'A' as int) as char else ch
  }

  /** `name.charAt(0).toUpperCase() + name.slice(1, -1)`: the collection name
      with its first letter capitalised and its last character dropped. */
  function SuccessLabel(name: string): (caption: string)
    ensures name == "" ==> caption == ""
    ensures |name| == 1 ==> caption == [UpperCase(name[0])]
    ensures |name| >= 2 ==> (
      && |caption| == |name| - 1
      && caption[0] == UpperCase(name[0])
      && caption[1..] + [name[|name| - 1]] == name[1..])
  {
    if name == [] then [] else [UpperCase(name[0])] + (if |name| >= 2 then name[1..|name| - 1] else [])
  }

  /** The success toast after adding a record. */
  function AddedMessage(name: string): (msg: string)
    ensures |msg| == |SuccessLabel(name)| + 7 && msg[|msg| - 7..] == " added!"
    ensures name != "" ==> msg[0] == UpperCase(name[0])
  {
    SuccessLabel(name) + " added!"
  }

  lemma SuccessLabelExamples()
    ensures SuccessLabel(CollectionName(Courses)) == "Course"
    ensures SuccessLabel(CollectionName(Faculty)) == "Facult"
    ensures SuccessLabel(CollectionName(Rooms)) == "Room"
    ensures SuccessLabel(CollectionName(Students)) == "Student"
  {
    assert "courses"[1..6] == "ourse";
    assert "faculty"[1..6] == "acult";
    assert "rooms"[1..4] == "oom";
    assert "students"[1..7] == "tudent";
  }

  // ---------------------------------------------------------------------------
  // Client state

  class AppState {
    var courses: seq<Record>
    var faculty: seq<Record>
    var rooms: seq<Record>
    var students: seq<Record>
    var generatedSchedule: Response

    /** Each collection slot holds records of its own kind. */
    predicate Valid()
      reads this
    {
      forall c :: OfKind(c, Data(c))
    }

    constructor ()
      ensures Valid()
      ensures courses == [] && faculty == [] && rooms == [] && students == []
      ensures generatedSchedule == ScheduleList([])
    {
      courses, faculty, rooms, students := [], [], [], [];
      generatedSchedule := ScheduleList([]);
    }

    function Data(c: Collection): seq<Record>
      reads this
    {
      match c
      case Courses => courses
      case Faculty => faculty
      case Rooms => rooms
      case Students => students
    }

    /** Stores a fetched collection in its slot and renders its table; a failed
      fetch (None) changes nothing. */
    method InitDataFor(c: Collection, fetched: Option<seq<Record>>) returns (table: Option<seq<Row>>)
      requires Valid()
      requires fetched.Some? ==> OfKind(c, fetched.value)
      modifies this
      ensures Valid()
      ensures fetched.Some? ==> Data(c) == fetched.value && table == Some(Table(fetched.value))
      ensures fetched.None? ==> Data(c) == old(Data(c)) && table == None
      ensures forall other :: other != c ==> Data(other) == old(Data(other))
      ensures generatedSchedule == old(generatedSchedule)
    {
      if fetched.None? {
        return None;
      }
      var data := fetched.value;
      match c {
        case Courses => courses := data;
        case Faculty => faculty := data;
        case Rooms => rooms := data;
        case Students => students := data;
      }
      table := Some(Table(data));
      forall other ensures OfKind(other, Data(other)) {
        if other != c {
          assert Data(other) == old(Data(other));
        }
      }
    }

    /** Builds the timetable view from the loaded collections, appending one row
        per schedule entry. */
    method RenderTimetable(response: Response) returns (view: View)
      ensures view == ViewOf(courses, faculty, rooms, response)
    {
      var cs, fs, rs := courses, faculty, rooms;
      match response
      case ErrorRecord(message) =>
        view := if message != "" then ErrorView(message) else TypeErrorThrown;
      case ScheduleList(entries) =>
        var rows: seq<TimetableRow> := [];
        for i := 0 to |entries|
          invariant |rows| == i
          invariant forall j :: 0 <= j < i ==> rows[j] == TimetableRowOf(cs, fs, rs, entries[j])
        {
          rows := rows + [TimetableRowOf(cs, fs, rs, entries[i])];
        }
        assert rows == TimetableRows(cs, fs, rs, entries);
        view := TimetableView(rows);
    }

    /** Keeps the generator's response and shows it; a failed request (None)
        keeps the previous schedule and shows nothing new. */
    method ShowGenerated(response: Option<Response>) returns (view: Option<View>)
      modifies this
      ensures response.Some? ==> generatedSchedule == response.value
      ensures response.Some? ==> view == Some(ViewOf(courses, faculty, rooms, response.value))
      ensures response.None? ==> generatedSchedule == old(generatedSchedule) && view == None
      ensures forall c :: Data(c) == old(Data(c))
    {
      if response.None? {
        return None;
      }
      generatedSchedule := response.value;
      var shown := RenderTimetable(response.value);
      view := Some(shown);
    }
  }
}
