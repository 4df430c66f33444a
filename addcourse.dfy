/// add_course in emploi_django/schedule/views.py: create a course from a
/// submitted form, then its assignments with professors found or created by
/// name, then the CM and TP rooms found or created by number.
module AddCourseView {
  import opened Outcomes
  import opened Catalog
  import opened Grid
  import opened Values
  import opened Tables

  /** request.POST: one string per submitted field. */
  type Form = map<string, string>

  /** request.POST.get(name), where an absent field and "" are both falsy. */
  function Field(form: Form, name: string): string {
    if name in form then form[name] else ""
  }

  /** int(request.POST.get(name, 0)): an absent field counts as 0. */
  function FormInt(form: Form, name: string): Option<int> {
    if name in form then ParseInt(form[name]) else Some(0)
  }

  /** The numeric fields of course_data. */
  const NumberFields: seq<string> := ["credits", "cm_hours", "td_hours", "tp_hours"]

  /** course_data and its validation: a field int() cannot read is an invalid
      value; an empty code or title, or a number that is 0 or absent, is a
      missing field. On success, the code and the new course. */
  function CourseData(form: Form): (r: Response<(string, Course)>)
    ensures r.Ok? || r == BadRequest(NotAnInteger) || r == BadRequest(MissingField)
    ensures r == BadRequest(NotAnInteger) <==> exists name :: name in NumberFields && FormInt(form, name).None?
    ensures r.Ok? <==>
              && Field(form, "code") != "" && Field(form, "title") != ""
              && forall name :: name in NumberFields ==> name in form && ParseInt(form[name]).Some? && ParseInt(form[name]).value != 0
    ensures r.Ok? ==>
              && r.value.0 == Field(form, "code") && r.value.1.title == Field(form, "title")
              && Some(r.value.1.credits) == FormInt(form, "credits")
              && Some(Planned(r.value.1, CM)) == FormInt(form, "cm_hours")
              && Some(Planned(r.value.1, TD)) == FormInt(form, "td_hours")
              && Some(Planned(r.value.1, TP)) == FormInt(form, "tp_hours")
              && Planned(r.value.1, Exam) == 0 && Planned(r.value.1, Devoir) == 0
              && forall k :: Completed(r.value.1, k) == 0
  {
    var credits, cm, td, tp := FormInt(form, "credits"), FormInt(form, "cm_hours"), FormInt(form, "td_hours"), FormInt(form, "tp_hours");
    NumberFieldsSpelled(form);
    if credits.None? || cm.None? || td.None? || tp.None? then BadRequest(NotAnInteger)
    else if Field(form, "code") == "" || Field(form, "title") == ""
         || credits.value == 0 || cm.value == 0 || td.value == 0 || tp.value == 0 then BadRequest(MissingField)
    else Ok((Field(form, "code"), NewCourse(Field(form, "title"), credits.value, cm.value, td.value, tp.value)))
  }

  /** The quantifiers over NumberFields, spelt out field by field. */
  lemma NumberFieldsSpelled(form: Form)
    ensures (exists name :: name in NumberFields && FormInt(form, name).None?) <==>
            FormInt(form, "credits").None? || FormInt(form, "cm_hours").None? ||
            FormInt(form, "td_hours").None? || FormInt(form, "tp_hours").None?
    ensures (forall name :: name in NumberFields ==> name in form && ParseInt(form[name]).Some? && ParseInt(form[name]).value != 0) <==>
            && FormInt(form, "credits").Some? && FormInt(form, "credits").value != 0
            && FormInt(form, "cm_hours").Some? && FormInt(form, "cm_hours").value != 0
            && FormInt(form, "td_hours").Some? && FormInt(form, "td_hours").value != 0
            && FormInt(form, "tp_hours").Some? && FormInt(form, "tp_hours").value != 0
  {
    assert forall name :: name in NumberFields <==> name == NumberFields[0] || name == NumberFields[1] || name == NumberFields[2] || name == NumberFields[3];
  }

  /** The create of add_course refuses (ValueError) exactly the courses with
      negative planned hours: a new course has 0 completed hours everywhere. */
  lemma NewCourseRefusedIffNegative(form: Form)
    requires CourseData(form).Ok?
    ensures Clean(CourseData(form).value.1).Some? <==> exists k :: Planned(CourseData(form).value.1, k) < 0
  {
  }

  /** The form field naming the professor of a modality. */
  function ProfessorField(t: SessionType): string {
    match t
    case CM => "cm_professor"
    case TD => "td_professor"
    case TP => "tp_professor"
  }

  /** The room number submitted for a modality: the form has cm_room and
      tp_room, and nothing for TD. */
  function RoomOf(form: Form, t: SessionType): string {
    match t
    case CM => Field(form, "cm_room")
    case TD => ""
    case TP => Field(form, "tp_room")
  }

  /** The assignments outside the course are as they were. */
  ghost predicate SameElsewhere(a: map<AssignmentKey, Staffing>, b: map<AssignmentKey, Staffing>, code: string) {
    forall key: AssignmentKey :: key.0 != code ==> (key in a <==> key in b) && (key in a ==> a[key] == b[key])
  }

  /** Every row of `small` is still in `big`, unchanged. */
  ghost predicate Extends<V>(small: map<int, V>, big: map<int, V>) {
    forall id :: id in small ==> id in big && big[id] == small[id]
  }

  /** `big` keeps every professor of `small` and adds only professors whose
      name is in `names` and whom `small` has no professor of that name. */
  ghost predicate AddedProfessors(small: map<int, string>, big: map<int, string>, names: set<string>) {
    && Extends(small, big)
    && forall id :: id in big && id !in small ==>
         big[id] in names && forall j :: j in small ==> small[j] != big[id]
  }

  /** `big` keeps every room of `small` and adds only rooms, with an empty
      type, whose number is in `numbers` and that `small` has no room of. */
  ghost predicate AddedRooms(small: map<int, Room>, big: map<int, Room>, numbers: set<string>) {
    && Extends(small, big)
    && forall id :: id in big && id !in small ==>
         && big[id].number in numbers && big[id].kind == ""
         && forall j :: j in small ==> small[j].number != big[id].number
  }

  /** The professor names the form submits. */
  function ProfessorNames(form: Form): set<string> {
    {Field(form, "cm_professor"), Field(form, "td_professor"), Field(form, "tp_professor")} - {""}
  }

  /** The room numbers the form submits. */
  function RoomNumbers(form: Form): set<string> {
    {Field(form, "cm_room"), Field(form, "tp_room")} - {""}
  }

  lemma SubmittedName(form: Form, t: SessionType)
    ensures {Field(form, ProfessorField(t))} - {""} <= ProfessorNames(form)
  {
  }

  lemma SubmittedNumbers(form: Form)
    ensures {RoomOf(form, CM)} - {""} <= RoomNumbers(form) && {RoomOf(form, TP)} - {""} <= RoomNumbers(form)
  {
  }

  lemma AddedProfessorsStep(a: map<int, string>, b: map<int, string>, c: map<int, string>,
                            names: set<string>, more: set<string>, all: set<string>)
    requires AddedProfessors(a, b, names) && AddedProfessors(b, c, more) && names <= all && more <= all
    ensures AddedProfessors(a, c, all)
  {
  }

  lemma AddedRoomsStep(a: map<int, Room>, b: map<int, Room>, c: map<int, Room>,
                       numbers: set<string>, more: set<string>, all: set<string>)
    requires AddedRooms(a, b, numbers) && AddedRooms(b, c, more) && numbers <= all && more <= all
    ensures AddedRooms(a, c, all)
  {
  }

  /** The modality has an assignment exactly when a professor was named for
      it, and that assignment's professor carries the submitted name. */
  predicate ProfessorAssigned(db: map<AssignmentKey, Staffing>, professors: map<int, string>,
                              form: Form, code: string, t: SessionType) {
    && ((code, t) in db <==> Field(form, ProfessorField(t)) != "")
    && ((code, t) in db ==>
          && db[(code, t)].professor.Some?
          && ProfessorNamed(professors, db[(code, t)].professor.value, Field(form, ProfessorField(t))))
  }

  /** The assignment of the modality, if any, has the submitted room, or none
      when no room was submitted. */
  predicate RoomAssigned(db: map<AssignmentKey, Staffing>, rooms: map<int, Room>,
                         form: Form, code: string, t: SessionType) {
    (code, t) in db ==>
      && (db[(code, t)].room.Some? <==> RoomOf(form, t) != "")
      && (db[(code, t)].room.Some? ==> RoomNumbered(rooms, db[(code, t)].room.value, RoomOf(form, t)))
  }

  /** The answer of add_course: the stored course with the submitted
      professor names and room numbers ('' where none was given). */
  datatype AddedCourse = AddedCourse(code: string, course: Course,
                                     cmProfessor: string, tdProfessor: string, tpProfessor: string,
                                     cmRoom: string, tpRoom: string)

  /** Only the assignment under `changed` may differ. */
  ghost predicate OnlyKeyChanged(a: map<AssignmentKey, Staffing>, b: map<AssignmentKey, Staffing>, changed: AssignmentKey) {
    forall key :: key != changed ==> (key in a <==> key in b) && (key in a ==> a[key] == b[key])
  }

  /** The modality's assignment, if any, was made from the form: its
      professor carries the submitted name and it has no room yet. */
  ghost predicate ProfessorOnly(a: map<AssignmentKey, Staffing>, professors: map<int, string>,
                                form: Form, code: string, t: SessionType) {
    && ProfessorAssigned(a, professors, form, code, t)
    && ((code, t) in a ==> a[(code, t)].room.None?)
  }

  lemma ProfessorOnlyStable(a: map<AssignmentKey, Staffing>, b: map<AssignmentKey, Staffing>,
                            p: map<int, string>, q: map<int, string>,
                            form: Form, code: string, t: SessionType, changed: AssignmentKey)
    requires changed != (code, t) && OnlyKeyChanged(a, b, changed) && Extends(p, q)
    requires ProfessorOnly(a, p, form, code, t)
    ensures ProfessorOnly(b, q, form, code, t)
  {
    assert (code, t) in a <==> (code, t) in b;
  }

  /** One pass of the loop over CM, TD and TP: when a professor is named for
      the modality, get_or_create them and create the assignment, with no room. */
  method AssignProfessor(db: Store, form: Form, code: string, t: SessionType) returns (ok: bool)
    requires db.Valid() && code in db.courses && (code, t) !in db.assignments
    modifies db
    ensures db.Valid()
    ensures db.courses == old(db.courses) && db.slots == old(db.slots)
    ensures db.rooms == old(db.rooms) && db.nextRoom == old(db.nextRoom)
    ensures OnlyKeyChanged(old(db.assignments), db.assignments, (code, t))
    ensures AddedProfessors(old(db.professors), db.professors, {Field(form, ProfessorField(t))} - {""})
    ensures DistinctNames(old(db.professors)) ==> ok && DistinctNames(db.professors)
    ensures ok ==> ProfessorOnly(db.assignments, db.professors, form, code, t)
  {
    var name := Field(form, ProfessorField(t));
    if name != "" {
      var p := db.GetOrCreateProfessor(name);
      assert AddedProfessors(old(db.professors), db.professors, {name} - {""}) by {
        if forall i :: !ProfessorNamed(old(db.professors), i, name) {
          forall id, j | id in db.professors && id !in old(db.professors) && j in old(db.professors)
            ensures db.professors[id] == name && old(db.professors)[j] != name
          {
            assert !ProfessorNamed(old(db.professors), j, name);
          }
        }
      }
      if p.None? {
        return false;
      }
      db.PutAssignment((code, t), Staffing(Some(p.value), None));
    }
    ok := true;
  }

  /** The loop of add_course over CM, TD and TP. */
  method AssignProfessors(db: Store, form: Form, code: string) returns (ok: bool)
    requires db.Valid() && code in db.courses
    requires forall t: SessionType :: (code, t) !in db.assignments
    modifies db
    ensures db.Valid()
    ensures db.courses == old(db.courses) && db.slots == old(db.slots)
    ensures db.rooms == old(db.rooms) && db.nextRoom == old(db.nextRoom)
    ensures SameElsewhere(db.assignments, old(db.assignments), code)
    ensures AddedProfessors(old(db.professors), db.professors, ProfessorNames(form))
    ensures DistinctNames(old(db.professors)) ==> ok && DistinctNames(db.professors)
    ensures ok ==> forall t: SessionType :: ProfessorOnly(db.assignments, db.professors, form, code, t)
  {
    var types: seq<SessionType> := [CM, TD, TP];
    var i := 0;
    while i < |types|
      invariant 0 <= i <= |types|
      invariant db.Valid()
      invariant db.courses == old(db.courses) && db.slots == old(db.slots)
      invariant db.rooms == old(db.rooms) && db.nextRoom == old(db.nextRoom)
      invariant SameElsewhere(db.assignments, old(db.assignments), code)
      invariant AddedProfessors(old(db.professors), db.professors, ProfessorNames(form))
      invariant DistinctNames(old(db.professors)) ==> DistinctNames(db.professors)
      invariant forall j :: 0 <= j < i ==> ProfessorOnly(db.assignments, db.professors, form, code, types[j])
      invariant forall j :: i <= j < |types| ==> (code, types[j]) !in db.assignments
    {
      var t := types[i];
      ghost var a, p := db.assignments, db.professors;
      ok := AssignProfessor(db, form, code, t);
      if !ok {
        return;
      }
      SameElsewhereStep(old(db.assignments), a, db.assignments, code, (code, t));
      SubmittedName(form, t);
      AddedProfessorsStep(old(db.professors), p, db.professors, ProfessorNames(form), {Field(form, ProfessorField(t))} - {""}, ProfessorNames(form));
      forall j | i < j < |types| ensures (code, types[j]) !in db.assignments {
        assert types[j] != t;
      }
      forall j | 0 <= j < i
        ensures ProfessorOnly(db.assignments, db.professors, form, code, types[j])
      {
        ProfessorOnlyStable(a, db.assignments, p, db.professors, form, code, types[j], (code, t));
      }
      i := i + 1;
    }
    forall t: SessionType
      ensures ProfessorOnly(db.assignments, db.professors, form, code, t)
    {
      assert t == types[0] || t == types[1] || t == types[2];
    }
    ok := true;
  }

  /** The modality is staffed as the form says: its professor and its room. */
  ghost predicate StaffedAsSubmitted(a: map<AssignmentKey, Staffing>, professors: map<int, string>, rooms: map<int, Room>,
                                     form: Form, code: string, t: SessionType) {
    ProfessorAssigned(a, professors, form, code, t) && RoomAssigned(a, rooms, form, code, t)
  }

  lemma StaffedStable(a: map<AssignmentKey, Staffing>, b: map<AssignmentKey, Staffing>, p: map<int, string>,
                      r: map<int, Room>, r2: map<int, Room>, form: Form, code: string, t: SessionType, changed: AssignmentKey)
    requires changed != (code, t) && OnlyKeyChanged(a, b, changed) && Extends(r, r2)
    requires StaffedAsSubmitted(a, p, r, form, code, t)
    ensures StaffedAsSubmitted(b, p, r2, form, code, t)
  {
    assert (code, t) in a <==> (code, t) in b;
  }

  /** With no room submitted, an assignment without a room is as submitted. */
  lemma NoRoomSubmitted(a: map<AssignmentKey, Staffing>, p: map<int, string>, r: map<int, Room>,
                        form: Form, code: string, t: SessionType)
    requires ProfessorOnly(a, p, form, code, t) && RoomOf(form, t) == ""
    ensures StaffedAsSubmitted(a, p, r, form, code, t)
  {
  }

  lemma SameElsewhereStep(a0: map<AssignmentKey, Staffing>, a: map<AssignmentKey, Staffing>,
                          b: map<AssignmentKey, Staffing>, code: string, changed: AssignmentKey)
    requires changed.0 == code && SameElsewhere(a, a0, code) && OnlyKeyChanged(a, b, changed)
    ensures SameElsewhere(b, a0, code)
  {
  }

  /** cm_room or tp_room, when given: get_or_create the room by number, then
      set it on the modality's assignment when there is one. */
  method AssignRoom(db: Store, form: Form, code: string, t: SessionType) returns (ok: bool)
    requires db.Valid() && code in db.courses
    requires ProfessorOnly(db.assignments, db.professors, form, code, t)
    modifies db
    ensures db.Valid()
    ensures db.courses == old(db.courses) && db.slots == old(db.slots)
    ensures db.professors == old(db.professors) && db.nextProfessor == old(db.nextProfessor)
    ensures AddedRooms(old(db.rooms), db.rooms, {RoomOf(form, t)} - {""})
    ensures DistinctNumbers(old(db.rooms)) ==> ok && DistinctNumbers(db.rooms)
    ensures OnlyKeyChanged(old(db.assignments), db.assignments, (code, t))
    ensures ok ==> StaffedAsSubmitted(db.assignments, db.professors, db.rooms, form, code, t)
  {
    if RoomOf(form, t) == "" {
      NoRoomSubmitted(db.assignments, db.professors, db.rooms, form, code, t);
      return true;
    }
    var number := RoomOf(form, t);
    var room := db.GetOrCreateRoom(number);
    assert AddedRooms(old(db.rooms), db.rooms, {number} - {""}) by {
      if forall i :: !RoomNumbered(old(db.rooms), i, number) {
        forall id, j | id in db.rooms && id !in old(db.rooms) && j in old(db.rooms)
          ensures db.rooms[id] == Room(number, "") && old(db.rooms)[j].number != number
        {
          assert !RoomNumbered(old(db.rooms), j, number);
        }
      }
    }
    if room.None? {
      return false;
    }
    if (code, t) in db.assignments {
      db.PutAssignment((code, t), Staffing(db.assignments[(code, t)].professor, Some(room.value)));
    }
    ok := true;
  }

  /** The cm_room and tp_room steps of add_course, after the professors. */
  method AssignRooms(db: Store, form: Form, code: string) returns (ok: bool)
    requires db.Valid() && code in db.courses
    requires forall t: SessionType :: ProfessorOnly(db.assignments, db.professors, form, code, t)
    modifies db
    ensures db.Valid()
    ensures db.courses == old(db.courses) && db.slots == old(db.slots)
    ensures db.professors == old(db.professors) && db.nextProfessor == old(db.nextProfessor)
    ensures SameElsewhere(db.assignments, old(db.assignments), code)
    ensures AddedRooms(old(db.rooms), db.rooms, RoomNumbers(form))
    ensures DistinctNumbers(old(db.rooms)) ==> ok && DistinctNumbers(db.rooms)
    ensures ok ==> forall t: SessionType :: StaffedAsSubmitted(db.assignments, db.professors, db.rooms, form, code, t)
  {
    ghost var a0, r0 := db.assignments, db.rooms;
    ok := AssignRoom(db, form, code, CM);
    if !ok {
      return;
    }
    ghost var a1, r1 := db.assignments, db.rooms;
    SubmittedNumbers(form);
    assert SameElsewhere(a1, a0, code) && OnlyKeyChanged(a0, a1, (code, CM));
    ProfessorOnlyStable(a0, a1, db.professors, db.professors, form, code, TD, (code, CM));
    ProfessorOnlyStable(a0, a1, db.professors, db.professors, form, code, TP, (code, CM));
    ok := AssignRoom(db, form, code, TP);
    if !ok {
      return;
    }
    SameElsewhereStep(a0, a1, db.assignments, code, (code, TP));
    AddedRoomsStep(r0, r1, db.rooms, {RoomOf(form, CM)} - {""}, {RoomOf(form, TP)} - {""}, RoomNumbers(form));
    StaffedStable(a1, db.assignments, db.professors, r1, db.rooms, form, code, CM, (code, TP));
    ProfessorOnlyStable(a1, db.assignments, db.professors, db.professors, form, code, TD, (code, TP));
    NoRoomSubmitted(db.assignments, db.professors, db.rooms, form, code, TD);
    forall t: SessionType
      ensures StaffedAsSubmitted(db.assignments, db.professors, db.rooms, form, code, t)
    {
      assert t == CM || t == TD || t == TP;
    }
    ok := true;
  }

  /** Everything add_course does after creating the course. */
  method StaffCourse(db: Store, form: Form, code: string) returns (ok: bool)
    requires db.Valid() && code in db.courses
    requires forall t: SessionType :: (code, t) !in db.assignments
    modifies db
    ensures db.Valid()
    ensures db.courses == old(db.courses) && db.slots == old(db.slots)
    ensures SameElsewhere(db.assignments, old(db.assignments), code)
    ensures AddedProfessors(old(db.professors), db.professors, ProfessorNames(form))
    ensures AddedRooms(old(db.rooms), db.rooms, RoomNumbers(form))
    ensures DistinctNames(old(db.professors)) ==> DistinctNames(db.professors)
    ensures DistinctNumbers(old(db.rooms)) ==> DistinctNumbers(db.rooms)
    ensures DistinctNames(old(db.professors)) && DistinctNumbers(old(db.rooms)) ==> ok
    ensures ok ==> forall t: SessionType :: StaffedAsSubmitted(db.assignments, db.professors, db.rooms, form, code, t)
  {
    ok := AssignProfessors(db, form, code);
    if !ok {
      return;
    }
    ghost var a0 := db.assignments;
    ok := AssignRooms(db, form, code);
    assert SameElsewhere(db.assignments, old(db.assignments), code) by {
      assert SameElsewhere(db.assignments, a0, code) && SameElsewhere(a0, old(db.assignments), code);
    }
  }

  /** add_course. Nothing changes when the form is refused, when the guard of
      Course.save refuses the new course (a bad request), or when the code
      is taken (a server error). Otherwise the course is stored, and the
      assignments and rooms follow; a get_or_create that meets several rows
      answers with a server error and leaves what was already written. */
  method AddCourse(db: Store, form: Form) returns (r: Response<AddedCourse>)
    requires db.Valid()
    modifies db
    ensures db.Valid()
    ensures var data := CourseData(form);
            && (!data.Ok? ==> r == data.Relay() && unchanged(db))
            && (data.Ok? && Clean(data.value.1).Some? ==> r == BadRequest(CompletedAbovePlanned) && unchanged(db))
            && (data.Ok? && Clean(data.value.1).None? && data.value.0 in old(db.courses) ==>
                  r == ServerError(DuplicateCode) && unchanged(db))
    ensures var data := CourseData(form);
            data.Ok? && Clean(data.value.1).None? && data.value.0 !in old(db.courses) ==>
              var code := data.value.0;
              && db.courses == old(db.courses)[code := data.value.1]
              && db.slots == old(db.slots)
              && SameElsewhere(db.assignments, old(db.assignments), code)
              && AddedProfessors(old(db.professors), db.professors, ProfessorNames(form))
              && AddedRooms(old(db.rooms), db.rooms, RoomNumbers(form))
              && (DistinctNames(old(db.professors)) ==> DistinctNames(db.professors))
              && (DistinctNumbers(old(db.rooms)) ==> DistinctNumbers(db.rooms))
              && (r.Ok? || r == ServerError(MultipleMatches))
              && (DistinctNames(old(db.professors)) && DistinctNumbers(old(db.rooms)) ==> r.Ok?)
              && (r.Ok? ==>
                    && r.value == AddedCourse(code, data.value.1, Field(form, "cm_professor"), Field(form, "td_professor"),
                                              Field(form, "tp_professor"), Field(form, "cm_room"), Field(form, "tp_room"))
                    && forall t: SessionType :: StaffedAsSubmitted(db.assignments, db.professors, db.rooms, form, code, t))
  {
    var data := CourseData(form);
    if !data.Ok? {
      return data.Relay();
    }
    var (code, course) := data.value;
    var created := db.Create(code, course);
    if created.Refused? {
      return BadRequest(CompletedAbovePlanned);
    }
    if created.KeyTaken? {
      return ServerError(DuplicateCode);
    }
    assert forall t: SessionType :: (code, t) !in db.assignments;
    var ok := StaffCourse(db, form, code);
    if !ok {
      return ServerError(MultipleMatches);
    }
    r := Ok(AddedCourse(code, course, Field(form, "cm_professor"), Field(form, "td_professor"),
                        Field(form, "tp_professor"), Field(form, "cm_room"), Field(form, "tp_room")));
  }
}
