/** The timetable generator: one boolean decision per (course, teacher, room,
    time slot) key, four families of hard constraints over those decisions, the
    read-back of a solution as a schedule, and the error record returned when
    no assignment satisfies the constraints. The external constraint solver is
    replaced by an exhaustive backtracking search with the same contract. */
module Solver {
  import opened Options

  type Id = int

  /** A student as the generator sees it: only the enrolled course ids are read. */
  datatype Student = Student(enrolledCourseIds: seq<Id>)

  /** The generator's five input lists. Of a course, teacher, room or time slot
      record only the id is read, so those lists hold ids. */
  datatype Problem = Problem(
    courses: seq<Id>,
    teachers: seq<Id>,
    rooms: seq<Id>,
    students: seq<Student>,
    timeSlots: seq<Id>)

  /** A decision key, and equally one entry of a returned schedule. */
  datatype Entry = Entry(courseId: Id, teacherId: Id, roomId: Id, timeSlotId: Id)

  /** What the generator returns: a schedule, or an error record. */
  datatype Outcome = Schedule(entries: seq<Entry>) | Error(error: string)

  const NoTimetable := "Could not find a valid timetable with the given constraints."

  predicate Distinct<T(==)>(xs: seq<T>) {
    forall i, j :: 0 <= i < j < |xs| ==> xs[i] != xs[j]
  }

  /** Enrolments are distinct, and name courses whenever decision variables for
      them are looked up: the lookup runs once per slot, teacher and room, so
      with none of one of these an unknown course id is never looked up. */
  predicate EnrolmentsKnown(p: Problem, st: Student) {
    && Distinct(st.enrolledCourseIds)
    && (p.teachers != [] && p.rooms != [] && p.timeSlots != [] ==>
          forall c :: c in st.enrolledCourseIds ==> c in p.courses)
  }

  /** Records carry distinct ids, and every enrolled course id whose decision
      variables are looked up names a course (otherwise the lookup fails). A
      student's enrolments are distinct because they are rows of a table keyed
      by the (student, course) pair. */
  predicate WellFormed(p: Problem) {
    && Distinct(p.courses)
    && Distinct(p.teachers)
    && Distinct(p.rooms)
    && Distinct(p.timeSlots)
    && forall k :: 0 <= k < |p.students| ==> EnrolmentsKnown(p, p.students[k])
  }

  // ---------------------------------------------------------------------------
  // Decision keys, in the order the four nested loops insert them

  function SlotKeys(c: Id, t: Id, r: Id, slots: seq<Id>): seq<Entry>
    decreases |slots|
  {
    if slots == [] then []
    else SlotKeys(c, t, r, slots[..|slots| - 1]) + [Entry(c, t, r, slots[|slots| - 1])]
  }

  function RoomKeys(c: Id, t: Id, rooms: seq<Id>, slots: seq<Id>): seq<Entry>
    decreases |rooms|
  {
    if rooms == [] then []
    else RoomKeys(c, t, rooms[..|rooms| - 1], slots) + SlotKeys(c, t, rooms[|rooms| - 1], slots)
  }

  /** The keys of one course: also the variable list of its exactly-one constraint. */
  function CourseKeys(c: Id, teachers: seq<Id>, rooms: seq<Id>, slots: seq<Id>): seq<Entry>
    decreases |teachers|
  {
    if teachers == [] then []
    else CourseKeys(c, teachers[..|teachers| - 1], rooms, slots) + RoomKeys(c, teachers[|teachers| - 1], rooms, slots)
  }

  function Keys(courses: seq<Id>, teachers: seq<Id>, rooms: seq<Id>, slots: seq<Id>): seq<Entry>
    decreases |courses|
  {
    if courses == [] then []
    else Keys(courses[..|courses| - 1], teachers, rooms, slots) + CourseKeys(courses[|courses| - 1], teachers, rooms, slots)
  }

  function DecisionKeys(p: Problem): seq<Entry> {
    Keys(p.courses, p.teachers, p.rooms, p.timeSlots)
  }

  /** A key drawn from the four input lists. */
  predicate IsKey(p: Problem, e: Entry) {
    e.courseId in p.courses && e.teacherId in p.teachers && e.roomId in p.rooms && e.timeSlotId in p.timeSlots
  }

  lemma DistinctAt<T>(xs: seq<T>, i: nat, j: nat)
    requires Distinct(xs) && i < |xs| && j < |xs| && xs[i] == xs[j]
    ensures i == j
  {
  }

  lemma DistinctConcat<T>(a: seq<T>, b: seq<T>)
    requires Distinct(a) && Distinct(b)
    requires forall x :: x in a ==> x !in b
    ensures Distinct(a + b)
  {
    forall i, j | 0 <= i < j < |a + b| ensures (a + b)[i] != (a + b)[j] {
      if j >= |a| && i < |a| {
        assert (a + b)[i] in a && (a + b)[j] == b[j - |a|];
      }
    }
  }

  lemma {:induction false} SlotKeysFacts(c: Id, t: Id, r: Id, slots: seq<Id>)
    ensures forall e :: e in SlotKeys(c, t, r, slots) <==>
      e.courseId == c && e.teacherId == t && e.roomId == r && e.timeSlotId in slots
    ensures Distinct(slots) ==> Distinct(SlotKeys(c, t, r, slots))
    decreases |slots|
  {
    if slots != [] {
      var init, last := slots[..|slots| - 1], slots[|slots| - 1];
      SlotKeysFacts(c, t, r, init);
      assert slots == init + [last];
      if Distinct(slots) {
        DistinctConcat(SlotKeys(c, t, r, init), [Entry(c, t, r, last)]);
      }
    }
  }

  lemma {:induction false} RoomKeysFacts(c: Id, t: Id, rooms: seq<Id>, slots: seq<Id>)
    ensures forall e :: e in RoomKeys(c, t, rooms, slots) <==>
      e.courseId == c && e.teacherId == t && e.roomId in rooms && e.timeSlotId in slots
    ensures Distinct(rooms) && Distinct(slots) ==> Distinct(RoomKeys(c, t, rooms, slots))
    decreases |rooms|
  {
    if rooms != [] {
      var init, last := rooms[..|rooms| - 1], rooms[|rooms| - 1];
      RoomKeysFacts(c, t, init, slots);
      SlotKeysFacts(c, t, last, slots);
      assert rooms == init + [last];
      if Distinct(rooms) && Distinct(slots) {
        DistinctConcat(RoomKeys(c, t, init, slots), SlotKeys(c, t, last, slots));
      }
    }
  }

  lemma {:induction false} CourseKeysFacts(c: Id, teachers: seq<Id>, rooms: seq<Id>, slots: seq<Id>)
    ensures forall e :: e in CourseKeys(c, teachers, rooms, slots) <==>
      e.courseId == c && e.teacherId in teachers && e.roomId in rooms && e.timeSlotId in slots
    ensures Distinct(teachers) && Distinct(rooms) && Distinct(slots) ==> Distinct(CourseKeys(c, teachers, rooms, slots))
    decreases |teachers|
  {
    if teachers != [] {
      var init, last := teachers[..|teachers| - 1], teachers[|teachers| - 1];
      CourseKeysFacts(c, init, rooms, slots);
      RoomKeysFacts(c, last, rooms, slots);
      assert teachers == init + [last];
      if Distinct(teachers) && Distinct(rooms) && Distinct(slots) {
        DistinctConcat(CourseKeys(c, init, rooms, slots), RoomKeys(c, last, rooms, slots));
      }
    }
  }

  lemma {:induction false} KeysFacts(courses: seq<Id>, teachers: seq<Id>, rooms: seq<Id>, slots: seq<Id>)
    ensures forall e :: e in Keys(courses, teachers, rooms, slots) <==>
      e.courseId in courses && e.teacherId in teachers && e.roomId in rooms && e.timeSlotId in slots
    ensures Distinct(courses) && Distinct(teachers) && Distinct(rooms) && Distinct(slots) ==>
      Distinct(Keys(courses, teachers, rooms, slots))
    decreases |courses|
  {
    if courses != [] {
      var init, last := courses[..|courses| - 1], courses[|courses| - 1];
      KeysFacts(init, teachers, rooms, slots);
      CourseKeysFacts(last, teachers, rooms, slots);
      assert courses == init + [last];
      if Distinct(courses) && Distinct(teachers) && Distinct(rooms) && Distinct(slots) {
        DistinctConcat(Keys(init, teachers, rooms, slots), CourseKeys(last, teachers, rooms, slots));
      }
    }
  }

  /** The decision keys are exactly the tuples drawn from the four input lists,
      each inserted once. */
  lemma DecisionKeysAreInputTuples(p: Problem)
    requires WellFormed(p)
    ensures forall e :: e in DecisionKeys(p) <==> IsKey(p, e)
    ensures Distinct(DecisionKeys(p))
  {
    KeysFacts(p.courses, p.teachers, p.rooms, p.timeSlots);
  }

  /** Fills the key list with four nested loops over courses, teachers, rooms and
      time slots; each inner loop is its own method below. */
  method BuildDecisionKeys(p: Problem) returns (keys: seq<Entry>)
    ensures keys == DecisionKeys(p)
  {
    keys := [];
    for i := 0 to |p.courses|
      invariant keys == Keys(p.courses[..i], p.teachers, p.rooms, p.timeSlots)
    {
      assert p.courses[..i + 1][..i] == p.courses[..i];
      keys := AppendCourseKeys(keys, p.courses[i], p.teachers, p.rooms, p.timeSlots);
    }
    assert p.courses[..|p.courses|] == p.courses;
  }

  method AppendCourseKeys(keys: seq<Entry>, c: Id, teachers: seq<Id>, rooms: seq<Id>, slots: seq<Id>)
    returns (keys': seq<Entry>)
    ensures keys' == keys + CourseKeys(c, teachers, rooms, slots)
  {
    keys' := keys;
    for j := 0 to |teachers|
      invariant keys' == keys + CourseKeys(c, teachers[..j], rooms, slots)
    {
      assert teachers[..j + 1][..j] == teachers[..j];
      keys' := AppendRoomKeys(keys', c, teachers[j], rooms, slots);
    }
    assert teachers[..|teachers|] == teachers;
  }

  method AppendRoomKeys(keys: seq<Entry>, c: Id, t: Id, rooms: seq<Id>, slots: seq<Id>)
    returns (keys': seq<Entry>)
    ensures keys' == keys + RoomKeys(c, t, rooms, slots)
  {
    keys' := keys;
    for k := 0 to |rooms|
      invariant keys' == keys + RoomKeys(c, t, rooms[..k], slots)
    {
      assert rooms[..k + 1][..k] == rooms[..k];
      keys' := AppendSlotKeys(keys', c, t, rooms[k], slots);
    }
    assert rooms[..|rooms|] == rooms;
  }

  method AppendSlotKeys(keys: seq<Entry>, c: Id, t: Id, r: Id, slots: seq<Id>)
    returns (keys': seq<Entry>)
    ensures keys' == keys + SlotKeys(c, t, r, slots)
  {
    keys' := keys;
    for l := 0 to |slots|
      invariant keys' == keys + SlotKeys(c, t, r, slots[..l])
    {
      assert slots[..l + 1][..l] == slots[..l];
      keys' := keys' + [Entry(c, t, r, slots[l])];
    }
    assert slots[..|slots|] == slots;
  }

  // ---------------------------------------------------------------------------
  // The hard constraints, over the set of keys whose decision is 1

  /** One value per constraint the generator adds: the exactly-one constraint of a
      course, and the at-most-one constraints of a teacher in a slot, a room in a
      slot and a student's enrolled courses in a slot. */
  datatype Group =
    | CourseGroup(courseId: Id)
    | TeacherSlot(teacherId: Id, timeSlotId: Id)
    | RoomSlot(roomId: Id, timeSlotId: Id)
    | StudentSlot(enrolledCourseIds: seq<Id>, timeSlotId: Id)

  /** Whether key e is one of the variables the group's constraint ranges over
      (the key itself being drawn from the inputs). */
  predicate InGroup(e: Entry, g: Group) {
    match g
    case CourseGroup(c) => e.courseId == c
    case TeacherSlot(t, s) => e.teacherId == t && e.timeSlotId == s
    case RoomSlot(r, s) => e.roomId == r && e.timeSlotId == s
    case StudentSlot(cs, s) => e.courseId in cs && e.timeSlotId == s
  }

  ghost predicate AtMostOne(chosen: set<Entry>, g: Group) {
    forall e1, e2 :: e1 in chosen && e2 in chosen && InGroup(e1, g) && InGroup(e2, g) ==> e1 == e2
  }

  ghost predicate ExactlyOne(chosen: set<Entry>, g: Group) {
    AtMostOne(chosen, g) && exists e :: e in chosen && InGroup(e, g)
  }

  /** The student constraint is only added when its variable list is non-empty. */
  predicate HasStudentVariables(p: Problem, st: Student) {
    st.enrolledCourseIds != [] && p.teachers != [] && p.rooms != []
  }

  /** Only declared variables can be set: every chosen key is drawn from the inputs. */
  ghost predicate DeclaredOnly(p: Problem, chosen: set<Entry>) {
    forall e :: e in chosen ==> IsKey(p, e)
  }

  ghost predicate EachCoursePlacedOnce(p: Problem, chosen: set<Entry>) {
    forall c :: c in p.courses ==> ExactlyOne(chosen, CourseGroup(c))
  }

  ghost predicate TeachersSingleBooked(p: Problem, chosen: set<Entry>) {
    forall t, s :: t in p.teachers && s in p.timeSlots ==> AtMostOne(chosen, TeacherSlot(t, s))
  }

  ghost predicate RoomsSingleBooked(p: Problem, chosen: set<Entry>) {
    forall r, s :: r in p.rooms && s in p.timeSlots ==> AtMostOne(chosen, RoomSlot(r, s))
  }

  ghost predicate StudentsSingleBooked(p: Problem, chosen: set<Entry>) {
    forall k, s :: 0 <= k < |p.students| && s in p.timeSlots && HasStudentVariables(p, p.students[k]) ==>
      AtMostOne(chosen, StudentSlot(p.students[k].enrolledCourseIds, s))
  }

  /** A solution: the set of keys set to 1 satisfies all four families. */
  ghost predicate Feasible(p: Problem, chosen: set<Entry>) {
    && DeclaredOnly(p, chosen)
    && EachCoursePlacedOnce(p, chosen)
    && TeachersSingleBooked(p, chosen)
    && RoomsSingleBooked(p, chosen)
    && StudentsSingleBooked(p, chosen)
  }

  // ---------------------------------------------------------------------------
  // Schedules

  predicate SharesTeacher(a: Entry, b: Entry) {
    a.timeSlotId == b.timeSlotId && a.teacherId == b.teacherId
  }

  predicate SharesRoom(a: Entry, b: Entry) {
    a.timeSlotId == b.timeSlotId && a.roomId == b.roomId
  }

  predicate BothEnrolled(st: Student, a: Entry, b: Entry) {
    a.courseId in st.enrolledCourseIds && b.courseId in st.enrolledCourseIds
  }

  ghost predicate SharesStudent(p: Problem, a: Entry, b: Entry) {
    a.timeSlotId == b.timeSlotId && exists k :: 0 <= k < |p.students| && BothEnrolled(p.students[k], a, b)
  }

  /** Two classes that may not share a slot. */
  ghost predicate Clash(p: Problem, a: Entry, b: Entry) {
    SharesTeacher(a, b) || SharesRoom(a, b) || SharesStudent(p, a, b)
  }

  ghost predicate Covered(s: seq<Entry>, c: Id) {
    exists i :: 0 <= i < |s| && s[i].courseId == c
  }

  /** Two different entries of a valid schedule. */
  ghost predicate Compatible(p: Problem, a: Entry, b: Entry) {
    a.courseId != b.courseId && !Clash(p, a, b)
  }

  /** A timetable that meets every hard constraint: each entry is drawn from the
      inputs, every course is placed, no course twice, and no teacher, room or
      student has two classes in one slot. */
  ghost predicate ValidSchedule(p: Problem, s: seq<Entry>) {
    && (forall i :: 0 <= i < |s| ==> IsKey(p, s[i]))
    && (forall c :: c in p.courses ==> Covered(s, c))
    && (forall i, j :: 0 <= i < j < |s| ==> Compatible(p, s[i], s[j]))
  }

  /** The i-th entry places the i-th course. */
  ghost predicate InCourseOrder(p: Problem, s: seq<Entry>) {
    |s| == |p.courses| && forall i :: 0 <= i < |s| ==> s[i].courseId == p.courses[i]
  }

  function Members(s: seq<Entry>): set<Entry> {
    set e | e in s
  }

  // ---------------------------------------------------------------------------
  // Reading a solution back

  /** The keys whose decision is 1, in key order. */
  function Selected(keys: seq<Entry>, chosen: set<Entry>): seq<Entry>
    decreases |keys|
  {
    if keys == [] then []
    else Selected(keys[..|keys| - 1], chosen) + (if keys[|keys| - 1] in chosen then [keys[|keys| - 1]] else [])
  }

  /** Walks the keys in insertion order and appends every key whose decision is 1. */
  method ExtractSchedule(keys: seq<Entry>, chosen: set<Entry>) returns (schedule: seq<Entry>)
    ensures schedule == Selected(keys, chosen)
  {
    schedule := [];
    for i := 0 to |keys|
      invariant schedule == Selected(keys[..i], chosen)
    {
      assert keys[..i + 1][..i] == keys[..i];
      if keys[i] in chosen {
        schedule := schedule + [keys[i]];
      }
    }
    assert keys[..|keys|] == keys;
  }

  lemma {:induction false} SelectedConcat(a: seq<Entry>, b: seq<Entry>, chosen: set<Entry>)
    ensures Selected(a + b, chosen) == Selected(a, chosen) + Selected(b, chosen)
    decreases |b|
  {
    if b == [] {
      assert a + b == a;
    } else {
      var init := b[..|b| - 1];
      assert (a + b)[..|a + b| - 1] == a + init;
      SelectedConcat(a, init, chosen);
    }
  }

  lemma {:induction false} SelectedNone(xs: seq<Entry>, chosen: set<Entry>)
    requires forall x :: x in xs ==> x !in chosen
    ensures Selected(xs, chosen) == []
    decreases |xs|
  {
    if xs != [] {
      SelectedNone(xs[..|xs| - 1], chosen);
    }
  }

  /** A list of distinct keys in which exactly e is chosen reads back as [e]. */
  lemma {:induction false} SelectedSingle(xs: seq<Entry>, chosen: set<Entry>, e: Entry)
    requires Distinct(xs) && e in xs && e in chosen
    requires forall x :: x in xs && x in chosen ==> x == e
    ensures Selected(xs, chosen) == [e]
    decreases |xs|
  {
    var init, last := xs[..|xs| - 1], xs[|xs| - 1];
    assert xs == init + [last];
    if last == e {
      SelectedNone(init, chosen);
    } else {
      SelectedSingle(init, chosen, e);
    }
  }

  /** The keys of one course read back as the single chosen key of that course. */
  lemma CourseReadsBack(p: Problem, chosen: set<Entry>, c: Id) returns (e: Entry)
    requires WellFormed(p) && DeclaredOnly(p, chosen) && ExactlyOne(chosen, CourseGroup(c))
    ensures e in chosen && e.courseId == c
    ensures Selected(CourseKeys(c, p.teachers, p.rooms, p.timeSlots), chosen) == [e]
  {
    e :| e in chosen && InGroup(e, CourseGroup(c));
    CourseKeysFacts(c, p.teachers, p.rooms, p.timeSlots);
    SelectedSingle(CourseKeys(c, p.teachers, p.rooms, p.timeSlots), chosen, e);
  }

  /** Reading back a solution of the first n courses' keys yields one chosen
      entry per course, in course order. */
  lemma {:induction false} SelectedPerCourse(p: Problem, chosen: set<Entry>, n: nat)
    requires WellFormed(p) && DeclaredOnly(p, chosen) && EachCoursePlacedOnce(p, chosen)
    requires n <= |p.courses|
    ensures var s := Selected(Keys(p.courses[..n], p.teachers, p.rooms, p.timeSlots), chosen);
      |s| == n && forall i :: 0 <= i < n ==> s[i] in chosen && s[i].courseId == p.courses[i]
  {
    if n > 0 {
      SelectedPerCourse(p, chosen, n - 1);
      var c := p.courses[n - 1];
      assert p.courses[..n][..n - 1] == p.courses[..n - 1];
      var before := Keys(p.courses[..n - 1], p.teachers, p.rooms, p.timeSlots);
      var own := CourseKeys(c, p.teachers, p.rooms, p.timeSlots);
      assert Keys(p.courses[..n], p.teachers, p.rooms, p.timeSlots) == before + own;
      SelectedConcat(before, own, chosen);
      var e := CourseReadsBack(p, chosen, c);
      var prior := Selected(before, chosen);
      var s := prior + [e];
      forall i | 0 <= i < n ensures s[i] in chosen && s[i].courseId == p.courses[i] {
        if i < n - 1 {
          assert s[i] == prior[i];
        }
      }
    }
  }

  /** A solution reads back as one chosen key per course, in course order. */
  lemma ReadBackInOrder(p: Problem, chosen: set<Entry>)
    requires WellFormed(p) && Feasible(p, chosen)
    ensures var s := Selected(DecisionKeys(p), chosen);
      |s| == |p.courses| && forall i :: 0 <= i < |s| ==> s[i] in chosen && s[i].courseId == p.courses[i]
  {
    SelectedPerCourse(p, chosen, |p.courses|);
    assert p.courses[..|p.courses|] == p.courses;
  }

  /** Two chosen keys that would put a teacher, a room or a student in two
      places at once are the same key. */
  lemma ClashingChosenCoincide(p: Problem, chosen: set<Entry>, a: Entry, b: Entry)
    requires Feasible(p, chosen) && a in chosen && b in chosen
    ensures Clash(p, a, b) ==> a == b
  {
    assert IsKey(p, a) && IsKey(p, b);
    if SharesTeacher(a, b) {
      assert AtMostOne(chosen, TeacherSlot(a.teacherId, a.timeSlotId));
    } else if SharesRoom(a, b) {
      assert AtMostOne(chosen, RoomSlot(a.roomId, a.timeSlotId));
    } else if SharesStudent(p, a, b) {
      var k :| 0 <= k < |p.students| && BothEnrolled(p.students[k], a, b);
      assert HasStudentVariables(p, p.students[k]);
      assert AtMostOne(chosen, StudentSlot(p.students[k].enrolledCourseIds, a.timeSlotId));
    }
  }

  // ---------------------------------------------------------------------------
  // Partial schedules, built course by course

  /** The first |s| courses are placed, in order, on keys drawn from the inputs,
      without any clash. */
  ghost predicate Placed(p: Problem, s: seq<Entry>) {
    && |s| <= |p.courses|
    && (forall i :: 0 <= i < |s| ==> s[i].courseId == p.courses[i] && IsKey(p, s[i]))
    && (forall i, j :: 0 <= i < j < |s| ==> !Clash(p, s[i], s[j]))
  }

  /** t is a complete clash-free placement that starts with prefix. */
  ghost predicate Completes(p: Problem, prefix: seq<Entry>, t: seq<Entry>) {
    Placed(p, t) && |t| == |p.courses| && prefix <= t
  }

  ghost predicate Extendable(p: Problem, prefix: seq<Entry>) {
    exists t :: Completes(p, prefix, t)
  }

  lemma PlacedPrefix(p: Problem, t: seq<Entry>, m: nat)
    requires Placed(p, t) && m <= |t|
    ensures Placed(p, t[..m])
  {
  }

  lemma PlacedFullIsValid(p: Problem, s: seq<Entry>)
    requires WellFormed(p) && Placed(p, s) && |s| == |p.courses|
    ensures ValidSchedule(p, s) && InCourseOrder(p, s)
  {
    forall c | c in p.courses ensures Covered(s, c) {
      var i :| 0 <= i < |p.courses| && p.courses[i] == c;
      assert s[i].courseId == c;
    }
  }

  /** The read-back of a solution places every course, in order, without a clash. */
  lemma ReadBackPlaced(p: Problem, chosen: set<Entry>)
    requires WellFormed(p) && Feasible(p, chosen)
    ensures Placed(p, Selected(DecisionKeys(p), chosen))
  {
    var s := Selected(DecisionKeys(p), chosen);
    ReadBackInOrder(p, chosen);
    forall i, j | 0 <= i < j < |s| ensures !Clash(p, s[i], s[j]) {
      assert s[i].courseId != s[j].courseId by {
        assert p.courses[i] != p.courses[j];
      }
      ClashingChosenCoincide(p, chosen, s[i], s[j]);
    }
  }

  /** The read-back of a solution holds every chosen key. */
  lemma ReadBackMembers(p: Problem, chosen: set<Entry>)
    requires WellFormed(p) && Feasible(p, chosen)
    ensures Members(Selected(DecisionKeys(p), chosen)) == chosen
  {
    var s := Selected(DecisionKeys(p), chosen);
    ReadBackInOrder(p, chosen);
    forall e | e in chosen ensures e in Members(s) {
      var i :| 0 <= i < |p.courses| && p.courses[i] == e.courseId;
      assert ExactlyOne(chosen, CourseGroup(p.courses[i]));
      assert s[i] in chosen && InGroup(s[i], CourseGroup(p.courses[i]));
    }
  }

  /** A solution reads back as a valid schedule in course order that holds
      exactly the chosen keys. */
  lemma FeasibleReadBack(p: Problem, chosen: set<Entry>)
    requires WellFormed(p) && Feasible(p, chosen)
    ensures var s := Selected(DecisionKeys(p), chosen);
      && Placed(p, s) && ValidSchedule(p, s) && InCourseOrder(p, s) && Members(s) == chosen
  {
    ReadBackPlaced(p, chosen);
    ReadBackMembers(p, chosen);
    ReadBackInOrder(p, chosen);
    PlacedFullIsValid(p, Selected(DecisionKeys(p), chosen));
  }

  /** Two entries of a valid schedule that share a course or clash are one entry. */
  lemma ValidEntriesCoincide(p: Problem, s: seq<Entry>, i: nat, j: nat)
    requires ValidSchedule(p, s) && i < |s| && j < |s|
    requires s[i].courseId == s[j].courseId || Clash(p, s[i], s[j])
    ensures i == j
  {
  }

  /** Two entries of a valid schedule for the same course, or that clash, are the
      same entry. */
  lemma MembersCoincide(p: Problem, s: seq<Entry>, e1: Entry, e2: Entry)
    requires ValidSchedule(p, s) && e1 in Members(s) && e2 in Members(s)
    requires e1.courseId == e2.courseId || Clash(p, e1, e2)
    ensures e1 == e2
  {
    var i :| 0 <= i < |s| && s[i] == e1;
    var j :| 0 <= j < |s| && s[j] == e2;
    ValidEntriesCoincide(p, s, i, j);
  }

  /** A valid schedule, read as the set of keys set to 1, satisfies every
      constraint the generator adds. */
  lemma ValidIsFeasible(p: Problem, s: seq<Entry>)
    requires WellFormed(p) && ValidSchedule(p, s)
    ensures Feasible(p, Members(s))
  {
    var chosen := Members(s);
    forall c | c in p.courses ensures ExactlyOne(chosen, CourseGroup(c)) {
      var i :| 0 <= i < |s| && s[i].courseId == c;
      assert s[i] in chosen;
      forall e1, e2 | e1 in chosen && e2 in chosen && InGroup(e1, CourseGroup(c)) && InGroup(e2, CourseGroup(c))
        ensures e1 == e2
      {
        MembersCoincide(p, s, e1, e2);
      }
    }
    forall t, sl | t in p.teachers && sl in p.timeSlots ensures AtMostOne(chosen, TeacherSlot(t, sl)) {
      forall e1, e2 | e1 in chosen && e2 in chosen && InGroup(e1, TeacherSlot(t, sl)) && InGroup(e2, TeacherSlot(t, sl))
        ensures e1 == e2
      {
        assert SharesTeacher(e1, e2);
        MembersCoincide(p, s, e1, e2);
      }
    }
    forall r, sl | r in p.rooms && sl in p.timeSlots ensures AtMostOne(chosen, RoomSlot(r, sl)) {
      forall e1, e2 | e1 in chosen && e2 in chosen && InGroup(e1, RoomSlot(r, sl)) && InGroup(e2, RoomSlot(r, sl))
        ensures e1 == e2
      {
        assert SharesRoom(e1, e2);
        MembersCoincide(p, s, e1, e2);
      }
    }
    forall k, sl | 0 <= k < |p.students| && sl in p.timeSlots && HasStudentVariables(p, p.students[k])
      ensures AtMostOne(chosen, StudentSlot(p.students[k].enrolledCourseIds, sl))
    {
      forall e1, e2 | e1 in chosen && e2 in chosen
        && InGroup(e1, StudentSlot(p.students[k].enrolledCourseIds, sl))
        && InGroup(e2, StudentSlot(p.students[k].enrolledCourseIds, sl))
        ensures e1 == e2
      {
        assert BothEnrolled(p.students[k], e1, e2);
        MembersCoincide(p, s, e1, e2);
      }
    }
  }

  function CourseIdsOf(s: seq<Entry>): (ids: seq<Id>)
    ensures |ids| == |s| && forall i :: 0 <= i < |s| ==> ids[i] == s[i].courseId
  {
    seq(|s|, i requires 0 <= i < |s| => s[i].courseId)
  }

  lemma {:induction false} DistinctCardinality(xs: seq<Id>)
    requires Distinct(xs)
    ensures |set x | x in xs| == |xs|
    decreases |xs|
  {
    if xs != [] {
      var init := xs[..|xs| - 1];
      DistinctCardinality(init);
      assert (set x | x in xs) == (set x | x in init) + {xs[|xs| - 1]};
    }
  }

  /** Every course is placed exactly once, so a valid schedule has one entry per course. */
  lemma ValidScheduleLength(p: Problem, s: seq<Entry>)
    requires WellFormed(p) && ValidSchedule(p, s)
    ensures |s| == |p.courses|
  {
    var ids := CourseIdsOf(s);
    forall i, j | 0 <= i < j < |ids| ensures ids[i] != ids[j] {
      assert Compatible(p, s[i], s[j]);
    }
    forall x ensures x in ids <==> x in p.courses {
      if x in p.courses {
        assert Covered(s, x);
      }
    }
    DistinctCardinality(ids);
    DistinctCardinality(p.courses);
    assert (set x | x in ids) == (set x | x in p.courses);
  }

  /** Two course-ordered lists whose entries are drawn from one another agree. */
  lemma CourseOrderedCoincide(p: Problem, s: seq<Entry>, t: seq<Entry>)
    requires Distinct(p.courses) && InCourseOrder(p, s) && |t| == |p.courses|
    requires forall i :: 0 <= i < |t| ==> t[i] in Members(s) && t[i].courseId == p.courses[i]
    ensures t == s
  {
    forall i | 0 <= i < |t| ensures t[i] == s[i] {
      var j :| 0 <= j < |s| && s[j] == t[i];
      DistinctAt(p.courses, i, j);
    }
  }

  /** A valid schedule in course order is exactly what reading back its own keys yields. */
  lemma ReadBackOfValid(p: Problem, s: seq<Entry>)
    requires WellFormed(p) && ValidSchedule(p, s) && InCourseOrder(p, s)
    ensures Selected(DecisionKeys(p), Members(s)) == s
  {
    ValidIsFeasible(p, s);
    ReadBackInOrder(p, Members(s));
    CourseOrderedCoincide(p, s, Selected(DecisionKeys(p), Members(s)));
  }

  // ---------------------------------------------------------------------------
  // Checking a schedule

  method IsClash(p: Problem, a: Entry, b: Entry) returns (clash: bool)
    ensures clash == Clash(p, a, b)
  {
    if a.timeSlotId != b.timeSlotId {
      return false;
    }
    if a.teacherId == b.teacherId || a.roomId == b.roomId {
      return true;
    }
    clash := false;
    for k := 0 to |p.students|
      invariant clash == exists m :: 0 <= m < k && BothEnrolled(p.students[m], a, b)
    {
      if BothEnrolled(p.students[k], a, b) {
        clash := true;
      }
    }
  }

  method IsCovered(s: seq<Entry>, c: Id) returns (covered: bool)
    ensures covered == Covered(s, c)
  {
    covered := false;
    for i := 0 to |s|
      invariant covered == exists m :: 0 <= m < i && s[m].courseId == c
    {
      if s[i].courseId == c {
        covered := true;
      }
    }
  }

  /** Decides whether a returned list is a valid timetable. */
  method CheckSchedule(p: Problem, s: seq<Entry>) returns (ok: bool)
    ensures ok <==> ValidSchedule(p, s)
  {
    for i := 0 to |s|
      invariant forall m :: 0 <= m < i ==> IsKey(p, s[m])
    {
      if !IsKey(p, s[i]) {
        return false;
      }
    }
    for n := 0 to |p.courses|
      invariant forall m :: 0 <= m < n ==> Covered(s, p.courses[m])
    {
      var covered := IsCovered(s, p.courses[n]);
      if !covered {
        return false;
      }
    }
    for i := 0 to |s|
      invariant forall i', j :: 0 <= i' < i && i' < j < |s| ==> Compatible(p, s[i'], s[j])
    {
      for j := i + 1 to |s|
        invariant forall j' :: i < j' < j ==> Compatible(p, s[i], s[j'])
      {
        var clash := IsClash(p, s[i], s[j]);
        if s[i].courseId == s[j].courseId || clash {
          return false;
        }
      }
    }
    return true;
  }

  // ---------------------------------------------------------------------------
  // The search standing in for the constraint solver

  /** Whether entry e can place the next course after the placed ones. */
  method Fits(p: Problem, placed: seq<Entry>, e: Entry) returns (ok: bool)
    requires Placed(p, placed) && |placed| < |p.courses|
    requires e.courseId == p.courses[|placed|] && IsKey(p, e)
    ensures ok <==> Placed(p, placed + [e])
  {
    for i := 0 to |placed|
      invariant forall m :: 0 <= m < i ==> !Clash(p, placed[m], e)
    {
      var clash := IsClash(p, placed[i], e);
      if clash {
        assert (placed + [e])[i] == placed[i] && (placed + [e])[|placed|] == e;
        return false;
      }
    }
    return true;
  }

  /** Only a clash-free placement can be completed. */
  lemma ExtendableIsPlaced(p: Problem, prefix: seq<Entry>)
    ensures Extendable(p, prefix) ==> Placed(p, prefix)
  {
    if Extendable(p, prefix) {
      var t :| Completes(p, prefix, t);
      PlacedPrefix(p, t, |prefix|);
      assert t[..|prefix|] == prefix;
    }
  }

  /** A completion of the placed courses passes through one of the next
      course's keys. */
  lemma ExtendableThroughKey(p: Problem, placed: seq<Entry>)
    requires |placed| < |p.courses|
    ensures Extendable(p, placed) ==>
      exists e :: e in CourseKeys(p.courses[|placed|], p.teachers, p.rooms, p.timeSlots) && Extendable(p, placed + [e])
  {
    if Extendable(p, placed) {
      var n := |placed|;
      var t :| Completes(p, placed, t);
      assert t[..n + 1] == placed + [t[n]];
      assert Completes(p, placed + [t[n]], t);
      CourseKeysFacts(p.courses[n], p.teachers, p.rooms, p.timeSlots);
    }
  }

  /** Backtracking over the keys of the next course, in key order: finds a
      completion of the placed courses whenever one exists. */
  method Search(p: Problem, placed: seq<Entry>) returns (found: Option<seq<Entry>>)
    requires WellFormed(p) && Placed(p, placed)
    ensures found.Some? ==> Completes(p, placed, found.value)
    ensures found.None? ==> !Extendable(p, placed)
    decreases |p.courses| - |placed|
  {
    var n := |placed|;
    if n == |p.courses| {
      assert Completes(p, placed, placed);
      return Some(placed);
    }
    var options := CourseKeys(p.courses[n], p.teachers, p.rooms, p.timeSlots);
    CourseKeysFacts(p.courses[n], p.teachers, p.rooms, p.timeSlots);
    for k := 0 to |options|
      invariant forall j :: 0 <= j < k ==> !Extendable(p, placed + [options[j]])
    {
      var e := options[k];
      var fits := Fits(p, placed, e);
      if fits {
        found := Search(p, placed + [e]);
        if found.Some? {
          assert placed <= placed + [e];
          return;
        }
      } else {
        ExtendableIsPlaced(p, placed + [e]);
      }
    }
    ExtendableThroughKey(p, placed);
    return None;
  }

  /** Declares the decision keys, finds a solution of the constraints, and reads
      it back as a schedule; returns the error record when there is none. */
  method GenerateTimetable(p: Problem) returns (result: Outcome)
    requires WellFormed(p)
    ensures result.Schedule? ==> ValidSchedule(p, result.entries) && InCourseOrder(p, result.entries)
    ensures result.Schedule? ==>
      exists chosen :: Feasible(p, chosen) && result.entries == Selected(DecisionKeys(p), chosen)
    ensures result.Error? ==> result.error == NoTimetable
    ensures result.Error? <==> forall chosen :: !Feasible(p, chosen)
    ensures result.Error? ==> forall s :: !ValidSchedule(p, s)
  {
    var keys := BuildDecisionKeys(p);
    var found := Search(p, []);
    if found.Some? {
      var s := found.value;
      PlacedFullIsValid(p, s);
      ValidIsFeasible(p, s);
      ReadBackOfValid(p, s);
      var chosen := set e | e in s;
      var schedule := ExtractSchedule(keys, chosen);
      result := Schedule(schedule);
    } else {
      forall chosen | Feasible(p, chosen) ensures Completes(p, [], Selected(DecisionKeys(p), chosen)) {
        FeasibleReadBack(p, chosen);
      }
      forall s | ValidSchedule(p, s) ensures Feasible(p, Members(s)) {
        ValidIsFeasible(p, s);
      }
      result := Error(NoTimetable);
    }
  }

  /** An assignment that places a course uses a teacher, a room and a slot. */
  lemma FeasibleNeedsResources(p: Problem, chosen: set<Entry>)
    requires |p.courses| > 0
    ensures Feasible(p, chosen) ==> p.teachers != [] && p.rooms != [] && p.timeSlots != []
  {
    if Feasible(p, chosen) {
      assert ExactlyOne(chosen, CourseGroup(p.courses[0]));
      var e :| e in chosen && InGroup(e, CourseGroup(p.courses[0]));
      assert IsKey(p, e);
    }
  }

  /** A timetable that places a course uses a teacher, a room and a slot. */
  lemma ValidNeedsResources(p: Problem, s: seq<Entry>)
    requires |p.courses| > 0
    ensures ValidSchedule(p, s) ==> p.teachers != [] && p.rooms != [] && p.timeSlots != []
  {
    if ValidSchedule(p, s) {
      assert Covered(s, p.courses[0]);
      assert IsKey(p, s[0]);
    }
  }

  /** With at least one course but no teachers, rooms or slots, nothing is feasible. */
  lemma NoResourcesNoTimetable(p: Problem)
    requires |p.courses| > 0 && (p.teachers == [] || p.rooms == [] || p.timeSlots == [])
    ensures forall chosen :: !Feasible(p, chosen)
    ensures forall s :: !ValidSchedule(p, s)
  {
    forall chosen ensures !Feasible(p, chosen) {
      FeasibleNeedsResources(p, chosen);
    }
    forall s ensures !ValidSchedule(p, s) {
      ValidNeedsResources(p, s);
    }
  }
}
