/// get_course_info (GET, PUT/POST and DELETE on one course) and delete_course
/// in emploi_django/schedule/views.py.
module CourseInfoView {
  import opened Outcomes
  import opened Catalog
  import opened Grid
  import opened Values
  import opened Attributes
  import opened Tables
  import opened PlanViews

  /** The modalities in the order the views visit them. */
  const Modalities: seq<SessionType> := [CM, TD, TP]

  /** The GET answer: the course's columns and, per modality with an
      assignment, the professor id and the room id when there is a room. */
  datatype CourseInfo = CourseInfo(code: string, title: string, credits: int,
                                   cmHours: int, tdHours: int, tpHours: int,
                                   professors: map<SessionType, int>, rooms: map<SessionType, int>)

  /** Some assignment of the course lost its professor to SET_NULL. */
  predicate LostProfessor(assignments: map<AssignmentKey, Staffing>, code: string) {
    exists t :: t in Modalities && (code, t) in assignments && assignments[(code, t)].professor.None?
  }

  /** GET: the course and its assignments. Reading the id of a professor that
      is NULL raises, which the view answers with a server error. */
  function GetCourseInfo(courses: map<string, Course>, assignments: map<AssignmentKey, Staffing>, code: string): (r: Response<CourseInfo>)
    ensures r.Ok? || r == NotFound || r == ServerError(NullProfessor)
    ensures r == NotFound <==> code !in courses
    ensures r == ServerError(NullProfessor) <==> code in courses && LostProfessor(assignments, code)
    ensures r.Ok? ==>
              var c := courses[code];
              && r.value.code == code && r.value.title == c.title && r.value.credits == c.credits
              && r.value.cmHours == c.cmHours && r.value.tdHours == c.tdHours && r.value.tpHours == c.tpHours
    ensures r.Ok? ==> forall t: SessionType ::
              && (t in r.value.professors <==> (code, t) in assignments)
              && (t in r.value.professors ==> assignments[(code, t)].professor == Some(r.value.professors[t]))
              && (t in r.value.rooms <==> (code, t) in assignments && assignments[(code, t)].room.Some?)
              && (t in r.value.rooms ==> assignments[(code, t)].room == Some(r.value.rooms[t]))
  {
    if code !in courses then NotFound
    else if LostProfessor(assignments, code) then ServerError(NullProfessor)
    else
      var c := courses[code];
      assert forall t: SessionType :: t in Modalities;
      Ok(CourseInfo(code, c.title, c.credits, c.cmHours, c.tdHours, c.tpHours,
                    map t | t in Modalities && (code, t) in assignments :: assignments[(code, t)].professor.value,
                    map t | t in Modalities && (code, t) in assignments && assignments[(code, t)].room.Some? ::
                      assignments[(code, t)].room.value))
  }

  /** The JSON body of PUT: the five course values as decoded, and the
      professor and room ids per modality (a missing entry and 0 are both falsy). */
  datatype CourseForm = CourseForm(title: Json, credits: Json, cmHours: Json, tdHours: Json, tpHours: Json,
                                   professors: map<SessionType, int>, rooms: map<SessionType, int>)

  /** data[...].get(t) is truthy. */
  predicate Given(ids: map<SessionType, int>, t: SessionType) {
    t in ids && ids[t] != 0
  }

  /** The instance update_or_create(code=code, defaults=...) saves: the
      stored course, or a new one with the model's defaults, with the five
      submitted values assigned. */
  function PutInstance(courses: map<string, Course>, code: string, form: CourseForm): Row {
    var base := if code in courses then courses[code] else NewCourse("", 0, 0, 0, 0);
    RowOf(code, base)[Title := form.title][Credits := form.credits]
                     [Hours(CM) := form.cmHours][Hours(TD) := form.tdHours][Hours(TP) := form.tpHours]
  }

  /** The course a PUT stores when its five values convert: the existing
      course with title, credits and CM/TD/TP hours replaced, or a new course. */
  function Upserted(courses: map<string, Course>, code: string, form: CourseForm): (c: Option<Course>)
    ensures c.Some? <==> TextOf(form.title).Some? && IntValue(form.credits).Some? &&
                         IntValue(form.cmHours).Some? && IntValue(form.tdHours).Some? && IntValue(form.tpHours).Some?
    ensures c.Some? ==> TextOf(form.title) == Some(c.value.title) && IntValue(form.credits) == Some(c.value.credits)
    ensures c.Some? ==> IntValue(form.cmHours) == Some(Planned(c.value, CM)) &&
                        IntValue(form.tdHours) == Some(Planned(c.value, TD)) &&
                        IntValue(form.tpHours) == Some(Planned(c.value, TP))
    ensures c.Some? && code in courses ==> forall k :: Completed(c.value, k) == Completed(courses[code], k)
    ensures c.Some? && code in courses ==> c.value.examHours == courses[code].examHours && c.value.devoirHours == courses[code].devoirHours
    ensures c.Some? && code !in courses ==>
              c.value == NewCourse(c.value.title, c.value.credits, Planned(c.value, CM), Planned(c.value, TD), Planned(c.value, TP))
  {
    if TextOf(form.title).None? || IntValue(form.credits).None? ||
       IntValue(form.cmHours).None? || IntValue(form.tdHours).None? || IntValue(form.tpHours).None? then None
    else
      var title, credits := TextOf(form.title).value, IntValue(form.credits).value;
      var cm, td, tp := IntValue(form.cmHours).value, IntValue(form.tdHours).value, IntValue(form.tpHours).value;
      if code in courses then
        Some(courses[code].(title := title, credits := credits, cmHours := cm, tdHours := td, tpHours := tp))
      else Some(NewCourse(title, credits, cm, td, tp))
  }

  /** Course.save on the PUT instance: when it writes, it writes Upserted
      under the URL's code. With numbers for the hours, the guard is Clean of
      that course; anything else for the CM hours (a string, null, a list)
      meets the stored int in the first comparison and raises TypeError. */
  lemma PutSaves(courses: map<string, Course>, code: string, form: CourseForm)
    ensures var s := SaveInstance(PutInstance(courses, code, form));
            && (s.Written? ==> Upserted(courses, code, form).Some? && s == Written(code, Upserted(courses, code, form).value))
            && (Upserted(courses, code, form).Some? &&
                NumberOf(form.cmHours).Some? && NumberOf(form.tdHours).Some? && NumberOf(form.tpHours).Some? ==>
                  var c := Upserted(courses, code, form).value;
                  s == if Clean(c).None? then Written(code, c) else Stopped(Over(Clean(c).value)))
            && (NumberOf(form.cmHours).None? ==> s == Stopped(Incomparable(CM)))
  {
    var row := PutInstance(courses, code, form);
    PutInstanceColumns(courses, code, form);
    if CourseOfRow(row).Some? || Upserted(courses, code, form).Some? {
      PutStores(courses, code, form);
      if NumberOf(form.cmHours).Some? && NumberOf(form.tdHours).Some? && NumberOf(form.tpHours).Some? {
        assert NumericHours(row) by {
          forall k ensures NumberOf(Lookup(row, Hours(k))).Some? && NumberOf(Lookup(row, Done(k))).Some? {
            match k { case CM => case TD => case TP => case Exam => case Devoir => }
          }
        }
        GuardOnInts(row);
      }
    }
    if NumberOf(form.cmHours).None? {
      assert Exceeds(row, CM).None?;
    }
  }

  /** The columns of the PUT instance: the five submitted values, and the
      base course's other columns. */
  lemma PutInstanceColumns(courses: map<string, Course>, code: string, form: CourseForm)
    ensures var row := PutInstance(courses, code, form);
            var base := if code in courses then courses[code] else NewCourse("", 0, 0, 0, 0);
            && Lookup(row, Key) == Str(code)
            && Lookup(row, Title) == form.title && Lookup(row, Credits) == form.credits
            && Lookup(row, Hours(CM)) == form.cmHours && Lookup(row, Hours(TD)) == form.tdHours
            && Lookup(row, Hours(TP)) == form.tpHours
            && (forall k :: Lookup(row, Done(k)) == Int(Completed(base, k)))
            && Lookup(row, Hours(Exam)) == Int(Planned(base, Exam))
            && Lookup(row, Hours(Devoir)) == Int(Planned(base, Devoir))
  {
    var base := if code in courses then courses[code] else NewCourse("", 0, 0, 0, 0);
    forall k ensures Lookup(PutInstance(courses, code, form), Done(k)) == Int(Completed(base, k)) {
      PutInstanceKeeps(courses, code, form, base, Done(k));
      RowColumns(code, base, k);
    }
    PutInstanceKeeps(courses, code, form, base, Hours(Exam));
    PutInstanceKeeps(courses, code, form, base, Hours(Devoir));
    RowColumns(code, base, Exam);
    RowColumns(code, base, Devoir);
  }

  /** The columns a PUT does not send keep the base course's values. */
  lemma PutInstanceKeeps(courses: map<string, Course>, code: string, form: CourseForm, base: Course, a: Attribute)
    requires base == if code in courses then courses[code] else NewCourse("", 0, 0, 0, 0)
    requires a !in {Title, Credits, Hours(CM), Hours(TD), Hours(TP)}
    ensures Lookup(PutInstance(courses, code, form), a) == Lookup(RowOf(code, base), a)
  {
  }

  /** The database stores the PUT instance exactly when Upserted is defined,
      and then stores Upserted under the URL's code. */
  lemma PutStores(courses: map<string, Course>, code: string, form: CourseForm)
    ensures CourseOfRow(PutInstance(courses, code, form)).Some? <==> Upserted(courses, code, form).Some?
    ensures Upserted(courses, code, form).Some? ==>
              CourseOfRow(PutInstance(courses, code, form)) == Some((code, Upserted(courses, code, form).value))
  {
    var row := PutInstance(courses, code, form);
    var base := if code in courses then courses[code] else NewCourse("", 0, 0, 0, 0);
    PutInstanceColumns(courses, code, form);
    if Upserted(courses, code, form).Some? {
      var c := Upserted(courses, code, form).value;
      forall k ensures IntValue(Lookup(row, Hours(k))) == Some(Planned(c, k)) &&
                       IntValue(Lookup(row, Done(k))) == Some(Completed(c, k)) {
        match k { case CM => case TD => case TP => case Exam => case Devoir => }
      }
      StoresCourse(row, code, c);
    }
  }

  /** The room a PUT sets on a modality: the given room, or none. */
  function RoomChoice(form: CourseForm, t: SessionType): Option<int> {
    if Given(form.rooms, t) then Some(form.rooms[t]) else None
  }

  /** The assignments after the PUT loop has visited the modalities `ts`:
      each modality with a professor gets update_or_create'd. */
  function StaffAll(a: map<AssignmentKey, Staffing>, code: string, form: CourseForm, ts: seq<SessionType>): map<AssignmentKey, Staffing> {
    if ts == [] then a
    else
      var before := StaffAll(a, code, form, ts[..|ts| - 1]);
      var t := ts[|ts| - 1];
      if Given(form.professors, t) then before[(code, t) := Staffing(Some(form.professors[t]), RoomChoice(form, t))]
      else before
  }

  /** The assignments after a PUT that went through. */
  function PutStaffing(a: map<AssignmentKey, Staffing>, code: string, form: CourseForm): (r: map<AssignmentKey, Staffing>)
    ensures forall t: SessionType :: Given(form.professors, t) ==>
              (code, t) in r && r[(code, t)] == Staffing(Some(form.professors[t]), RoomChoice(form, t))
    ensures forall key: AssignmentKey :: key.0 != code || !Given(form.professors, key.1) ==>
              (key in r <==> key in a) && (key in r ==> r[key] == a[key])
  {
    forall key: AssignmentKey {
      StaffAllAt(a, code, form, Modalities, key);
    }
    assert forall t: SessionType :: t in Modalities;
    StaffAll(a, code, form, Modalities)
  }

  /** Visiting the modalities `ts` sets the assignment of each of them that
      has a professor, and touches nothing else. */
  lemma {:induction false} StaffAllAt(a: map<AssignmentKey, Staffing>, code: string, form: CourseForm,
                                      ts: seq<SessionType>, key: AssignmentKey)
    ensures var r := StaffAll(a, code, form, ts);
            if key.0 == code && key.1 in ts && Given(form.professors, key.1)
            then key in r && r[key] == Staffing(Some(form.professors[key.1]), RoomChoice(form, key.1))
            else (key in r <==> key in a) && (key in r ==> r[key] == a[key])
  {
    if ts != [] {
      var init := ts[..|ts| - 1];
      StaffAllAt(a, code, form, init, key);
      assert key.1 in ts <==> key.1 in init || key.1 == ts[|ts| - 1] by {
        assert ts == init + [ts[|ts| - 1]];
      }
    }
  }

  /** Every professor and room id the PUT names exists. */
  predicate ReferencesExist(professors: map<int, string>, rooms: map<int, Room>, form: CourseForm) {
    forall t :: t in Modalities && Given(form.professors, t) ==>
      form.professors[t] in professors && (Given(form.rooms, t) ==> form.rooms[t] in rooms)
  }

  /** The ids the PUT names for modality t exist (or it names no professor). */
  predicate ModalityReferences(professors: map<int, string>, rooms: map<int, Room>, form: CourseForm, t: SessionType) {
    !Given(form.professors, t) ||
    (form.professors[t] in professors && (Given(form.rooms, t) ==> form.rooms[t] in rooms))
  }

  /** Modalities[i] is the first modality whose professor or room id is missing. */
  predicate FirstMissing(professors: map<int, string>, rooms: map<int, Room>, form: CourseForm, i: int) {
    && 0 <= i < |Modalities|
    && !ModalityReferences(professors, rooms, form, Modalities[i])
    && forall j :: 0 <= j < i ==> ModalityReferences(professors, rooms, form, Modalities[j])
  }

  /** There is at most one first missing modality, so the 404 state is determined. */
  lemma FirstMissingUnique(professors: map<int, string>, rooms: map<int, Room>, form: CourseForm, i: int, j: int)
    requires FirstMissing(professors, rooms, form, i) && FirstMissing(professors, rooms, form, j)
    ensures i == j
  {
  }

  /** One pass of the PUT loop: look up the professor, then the room (either
      missing answers 404), then update_or_create the assignment. */
  method PutModality(db: Store, code: string, form: CourseForm, t: SessionType) returns (found: bool)
    requires db.Valid() && code in db.courses
    modifies db
    ensures db.Valid()
    ensures db.courses == old(db.courses) && db.slots == old(db.slots)
    ensures db.professors == old(db.professors) && db.rooms == old(db.rooms)
    ensures db.nextProfessor == old(db.nextProfessor) && db.nextRoom == old(db.nextRoom)
    ensures found <==> !Given(form.professors, t) ||
                       (form.professors[t] in db.professors && (Given(form.rooms, t) ==> form.rooms[t] in db.rooms))
    ensures found ==> db.assignments == StaffAll(old(db.assignments), code, form, [t])
    ensures !found ==> db.assignments == old(db.assignments)
  {
    if Given(form.professors, t) {
      var professor := form.professors[t];
      if professor !in db.professors {
        return false;
      }
      var room: Option<int> := None;
      if Given(form.rooms, t) {
        if form.rooms[t] !in db.rooms {
          return false;
        }
        room := Some(form.rooms[t]);
      }
      db.PutAssignment((code, t), Staffing(Some(professor), room));
    }
    assert [t][..0] == [];
    found := true;
  }

  lemma StaffAllSnoc(a: map<AssignmentKey, Staffing>, code: string, form: CourseForm, ts: seq<SessionType>, t: SessionType)
    ensures StaffAll(a, code, form, ts + [t]) == StaffAll(StaffAll(a, code, form, ts), code, form, [t])
  {
    assert (ts + [t])[..|ts|] == ts;
    assert [t][..0] == [];
  }

  /** The answer when Course.save does not write: the guard's ValueError,
      its TypeError, or a value the database cannot store, all caught as
      server errors. */
  function SaveFault(s: Saving): (f: ServerFault)
    requires !s.Written?
    ensures f == SaveRefused <==> s.Stopped? && s.stop.Over?
    ensures f == UnorderedValues <==> s.Stopped? && s.stop.Incomparable?
    ensures f == ColumnRefused <==> s.Unstorable?
  {
    match s
    case Stopped(Over(_)) => SaveRefused
    case Stopped(Incomparable(_)) => UnorderedValues
    case Unstorable => ColumnRefused
  }

  /** PUT/POST: update or create the course (Course.save not writing is a
      server error and changes nothing), then for each modality with a
      professor id, set the assignment's professor and room. A professor or
      room id that does not exist answers 404 and leaves the course and the
      modalities already visited written. */
  method PutCourse(db: Store, code: string, form: CourseForm) returns (r: Response<()>)
    requires db.Valid()
    modifies db
    ensures db.Valid()
    ensures var s := SaveInstance(PutInstance(old(db.courses), code, form));
            && (!s.Written? ==> r == ServerError(SaveFault(s)) && unchanged(db))
            && (s.Written? ==> s.code == code && db.courses == old(db.courses)[code := s.course])
            && (r.Ok? <==> s.Written? && ReferencesExist(old(db.professors), old(db.rooms), form))
            && (r.ServerError? ==> !s.Written?)
    ensures r.Ok? ==> db.assignments == PutStaffing(old(db.assignments), code, form)
    ensures var s := SaveInstance(PutInstance(old(db.courses), code, form));
            s.Written? && !ReferencesExist(old(db.professors), old(db.rooms), form) ==> r == NotFound
    ensures r == NotFound ==>
              exists i :: FirstMissing(old(db.professors), old(db.rooms), form, i) &&
                          db.assignments == StaffAll(old(db.assignments), code, form, Modalities[..i])
    ensures db.slots == old(db.slots) && db.professors == old(db.professors) && db.rooms == old(db.rooms)
    ensures db.nextProfessor == old(db.nextProfessor) && db.nextRoom == old(db.nextRoom)
  {
    var s := SavePut(db, code, form);
    if !s.Written? {
      return ServerError(SaveFault(s));
    }
    var found := PutModalities(db, code, form);
    r := if found then Ok(()) else NotFound;
  }

  /** update_or_create of the course: Course.save on the PUT instance. */
  method SavePut(db: Store, code: string, form: CourseForm) returns (s: Saving)
    requires db.Valid()
    modifies db
    ensures db.Valid()
    ensures s == SaveInstance(PutInstance(old(db.courses), code, form))
    ensures !s.Written? ==> unchanged(db)
    ensures s.Written? ==> s.code == code && db.courses == old(db.courses)[code := s.course]
    ensures db.assignments == old(db.assignments)
    ensures db.slots == old(db.slots) && db.professors == old(db.professors) && db.rooms == old(db.rooms)
    ensures db.nextProfessor == old(db.nextProfessor) && db.nextRoom == old(db.nextRoom)
  {
    s := SaveInstance(PutInstance(db.courses, code, form));
    if s.Written? {
      PutSaves(db.courses, code, form);
      db.Write(s.code, s.course);
    }
  }

  /** The loop of the PUT over CM, TD and TP: it stops at the first professor
      or room id that does not exist, with the modalities before it written. */
  method PutModalities(db: Store, code: string, form: CourseForm) returns (found: bool)
    requires db.Valid() && code in db.courses
    modifies db
    ensures db.Valid()
    ensures db.courses == old(db.courses) && db.slots == old(db.slots)
    ensures db.professors == old(db.professors) && db.rooms == old(db.rooms)
    ensures db.nextProfessor == old(db.nextProfessor) && db.nextRoom == old(db.nextRoom)
    ensures found <==> ReferencesExist(db.professors, db.rooms, form)
    ensures found ==> db.assignments == StaffAll(old(db.assignments), code, form, Modalities)
    ensures !found ==>
              exists i :: FirstMissing(db.professors, db.rooms, form, i) &&
                          db.assignments == StaffAll(old(db.assignments), code, form, Modalities[..i])
  {
    var i := 0;
    while i < |Modalities|
      invariant 0 <= i <= |Modalities|
      invariant db.Valid()
      invariant db.courses == old(db.courses) && db.slots == old(db.slots)
      invariant db.professors == old(db.professors) && db.rooms == old(db.rooms)
      invariant db.nextProfessor == old(db.nextProfessor) && db.nextRoom == old(db.nextRoom)
      invariant db.assignments == StaffAll(old(db.assignments), code, form, Modalities[..i])
      invariant forall j :: 0 <= j < i ==> ModalityReferences(db.professors, db.rooms, form, Modalities[j])
    {
      var t := Modalities[i];
      found := PutModality(db, code, form, t);
      if !found {
        assert FirstMissing(db.professors, db.rooms, form, i);
        return;
      }
      StaffAllSnoc(old(db.assignments), code, form, Modalities[..i], t);
      assert Modalities[..i + 1] == Modalities[..i] + [t];
      i := i + 1;
    }
    assert Modalities[..i] == Modalities;
    found := true;
  }

  /** Reading a course back after a PUT that went through gives what was put:
      the columns as the database converted them, and each professor and
      room id that was sent. */
  lemma PutThenGet(courses: map<string, Course>, assignments: map<AssignmentKey, Staffing>, code: string, form: CourseForm)
    requires Upserted(courses, code, form).Some?
    requires forall t: SessionType :: !Given(form.professors, t) && (code, t) in assignments ==>
               assignments[(code, t)].professor.Some?
    ensures var info := GetCourseInfo(courses[code := Upserted(courses, code, form).value], PutStaffing(assignments, code, form), code);
            && info.Ok?
            && TextOf(form.title) == Some(info.value.title) && IntValue(form.credits) == Some(info.value.credits)
            && IntValue(form.cmHours) == Some(info.value.cmHours) && IntValue(form.tdHours) == Some(info.value.tdHours)
            && IntValue(form.tpHours) == Some(info.value.tpHours)
            && forall t: SessionType :: Given(form.professors, t) ==>
                 && t in info.value.professors && info.value.professors[t] == form.professors[t]
                 && (t in info.value.rooms <==> Given(form.rooms, t))
                 && (Given(form.rooms, t) ==> info.value.rooms[t] == form.rooms[t])
  {
    var after := PutStaffing(assignments, code, form);
    forall t | t in Modalities && (code, t) in after
      ensures after[(code, t)].professor.Some?
    {
    }
  }

  /** A professor's deletion sets their assignments' professor to NULL, after
      which GET on any of those courses fails. */
  lemma DeletedProfessorBreaksInfo(courses: map<string, Course>, assignments: map<AssignmentKey, Staffing>,
                                   code: string, t: SessionType, id: int)
    requires code in courses && (code, t) in assignments && assignments[(code, t)].professor == Some(id)
    ensures GetCourseInfo(courses, ClearProfessor(assignments, id), code) == ServerError(NullProfessor)
  {
    assert t in Modalities;
    assert ClearProfessor(assignments, id)[(code, t)].professor.None?;
  }

  /** DELETE: the course and, through Course.delete, its assignments and slots. */
  method DeleteCourseInfo(db: Store, code: string) returns (r: Response<()>)
    requires db.Valid()
    modifies db
    ensures db.Valid()
    ensures code !in old(db.courses) ==> r == NotFound && unchanged(db)
    ensures code in old(db.courses) ==>
              && r == Ok(())
              && db.courses == old(db.courses) - {code}
              && db.assignments == AssignmentsWithout(old(db.assignments), code)
              && db.slots == WithoutCourse(old(db.slots), code)
    ensures db.professors == old(db.professors) && db.rooms == old(db.rooms)
    ensures db.nextProfessor == old(db.nextProfessor) && db.nextRoom == old(db.nextRoom)
  {
    if code !in db.courses {
      return NotFound;
    }
    db.Delete(code);
    r := Ok(());
  }

  /** delete_course: like DELETE, with a missing or empty code refused first.
      The view answers every outcome with HTTP 200 and a success flag. */
  method DeleteCourse(db: Store, code: string) returns (r: Response<()>)
    requires db.Valid()
    modifies db
    ensures db.Valid()
    ensures code == "" ==> r == BadRequest(MissingField) && unchanged(db)
    ensures code != "" && code !in old(db.courses) ==> r == NotFound && unchanged(db)
    ensures code != "" && code in old(db.courses) ==>
              && r == Ok(())
              && db.courses == old(db.courses) - {code}
              && db.assignments == AssignmentsWithout(old(db.assignments), code)
              && db.slots == WithoutCourse(old(db.slots), code)
    ensures db.professors == old(db.professors) && db.rooms == old(db.rooms)
    ensures db.nextProfessor == old(db.nextProfessor) && db.nextRoom == old(db.nextRoom)
  {
    if code == "" {
      return BadRequest(MissingField);
    }
    r := DeleteCourseInfo(db, code);
  }

  /** After a course is deleted, GET on it answers 404 and no week's plan
      shows it any more. */
  lemma DeletedCourseIsGone(courses: map<string, Course>, assignments: map<AssignmentKey, Staffing>,
                            slots: seq<Slot>, code: string, week: int)
    ensures GetCourseInfo(courses - {code}, AssignmentsWithout(assignments, code), code) == NotFound
    ensures forall row :: row in GetPlan(WithoutCourse(slots, code), week) ==> row.courseCode != code
  {
    WithoutCourseMembers(slots, code);
  }
}
