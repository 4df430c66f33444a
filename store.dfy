/// The database of emploi_django/schedule/models.py as one object: the Course,
/// CourseAssignment, TimeSlot, Professor and Room tables, and the model-level
/// operations that change them (Course.save, Course.delete, the CASCADE and
/// SET_NULL rules, get_or_create, TimeSlot creation under its uniqueness).
module Tables {
  import opened Outcomes
  import opened Catalog
  import opened Grid

  /** How Course.save (or create, which forces an INSERT) ends. */
  datatype SaveOutcome = Saved | Refused(k: Category) | KeyTaken

  /** The assignment's professor and room, when set, are rows that exist. */
  predicate Linked(s: Staffing, professors: map<int, string>, rooms: map<int, Room>) {
    && (s.professor.Some? ==> s.professor.value in professors)
    && (s.room.Some? ==> s.room.value in rooms)
  }

  /** on_delete=SET_NULL for the professor: the assignments keep their rows. */
  function ClearProfessor(assignments: map<AssignmentKey, Staffing>, id: int): (r: map<AssignmentKey, Staffing>)
    ensures r.Keys == assignments.Keys
    ensures forall key :: key in r ==> r[key].professor != Some(id) && r[key].room == assignments[key].room
    ensures forall key :: key in r && assignments[key].professor != Some(id) ==> r[key] == assignments[key]
    ensures forall key :: key in r && assignments[key].professor == Some(id) ==> r[key] == Staffing(None, assignments[key].room)
  {
    map key | key in assignments ::
      if assignments[key].professor == Some(id) then Staffing(None, assignments[key].room) else assignments[key]
  }

  /** on_delete=SET_NULL for the room. */
  function ClearRoom(assignments: map<AssignmentKey, Staffing>, id: int): (r: map<AssignmentKey, Staffing>)
    ensures r.Keys == assignments.Keys
    ensures forall key :: key in r ==> r[key].room != Some(id) && r[key].professor == assignments[key].professor
    ensures forall key :: key in r && assignments[key].room != Some(id) ==> r[key] == assignments[key]
    ensures forall key :: key in r && assignments[key].room == Some(id) ==> r[key] == Staffing(assignments[key].professor, None)
  {
    map key | key in assignments ::
      if assignments[key].room == Some(id) then Staffing(assignments[key].professor, None) else assignments[key]
  }

  /** The assignments that do not belong to the course: what Course.delete leaves. */
  function AssignmentsWithout(assignments: map<AssignmentKey, Staffing>, code: string): (r: map<AssignmentKey, Staffing>)
    ensures forall key :: key in r <==> key in assignments && key.0 != code
    ensures forall key :: key in r ==> r[key] == assignments[key]
  {
    map key | key in assignments && key.0 != code :: assignments[key]
  }

  /** Professor id names the professor `name`. */
  predicate ProfessorNamed(professors: map<int, string>, id: int, name: string) {
    id in professors && professors[id] == name
  }

  /** Room id carries the number. */
  predicate RoomNumbered(rooms: map<int, Room>, id: int, number: string) {
    id in rooms && rooms[id].number == number
  }

  /** No two professors share a name: get_or_create(name=...) never meets several. */
  predicate DistinctNames(professors: map<int, string>) {
    forall i, j :: i in professors && j in professors && professors[i] == professors[j] ==> i == j
  }

  /** No two rooms share a number. */
  predicate DistinctNumbers(rooms: map<int, Room>) {
    forall i, j :: i in rooms && j in rooms && rooms[i].number == rooms[j].number ==> i == j
  }

  class Store {
    var courses: map<string, Course>
    var assignments: map<AssignmentKey, Staffing>
    var slots: seq<Slot>
    var professors: map<int, string>
    var rooms: map<int, Room>
    /** The next AutoField ids; SQLite's AUTOINCREMENT never hands out an id twice. */
    var nextProfessor: int
    var nextRoom: int

    /** What the schema guarantees of every reachable state. Course.save's
        guard is not among them: it compares the values an instance holds
        before they are converted, so a course above its planned hours can
        be stored (see UpdateCourseView.StringHoursPassGuard). */
    ghost predicate Valid()
      reads this
    {
      && (forall key :: key in assignments ==> key.0 in courses)
      && (forall key :: key in assignments ==> Linked(assignments[key], professors, rooms))
      && Grounded(assignments, slots)
      && UniqueCells(slots)
      && 0 < nextProfessor && (forall id :: id in professors ==> 0 < id < nextProfessor)
      && 0 < nextRoom && (forall id :: id in rooms ==> 0 < id < nextRoom)
    }

    constructor ()
      ensures Valid()
      ensures courses == map[] && assignments == map[] && slots == []
      ensures professors == map[] && rooms == map[]
    {
      courses, assignments, slots := map[], map[], [];
      professors, rooms := map[], map[];
      nextProfessor, nextRoom := 1, 1;
    }

    /** Course.save: the five-comparison guard, then an UPDATE or INSERT under the code. */
    method Save(code: string, c: Course) returns (r: SaveOutcome)
      requires Valid()
      modifies this
      ensures Valid()
      ensures r == (if Clean(c).None? then Saved else Refused(Clean(c).value))
      ensures r.Refused? ==> unchanged(this)
      ensures courses == if r.Saved? then old(courses)[code := c] else old(courses)
      ensures assignments == old(assignments) && slots == old(slots)
      ensures professors == old(professors) && rooms == old(rooms)
      ensures nextProfessor == old(nextProfessor) && nextRoom == old(nextRoom)
    {
      var refused := Clean(c);
      if refused.Some? {
        return Refused(refused.value);
      }
      courses := courses[code := c];
      r := Saved;
    }

    /** The UPDATE or INSERT behind Course.save, once its guard has let the
        instance through. */
    method Write(code: string, c: Course)
      requires Valid()
      modifies this
      ensures Valid()
      ensures courses == old(courses)[code := c]
      ensures assignments == old(assignments) && slots == old(slots)
      ensures professors == old(professors) && rooms == old(rooms)
      ensures nextProfessor == old(nextProfessor) && nextRoom == old(nextRoom)
    {
      courses := courses[code := c];
    }

    /** Course.objects.create: save with a forced INSERT, which fails on an existing code. */
    method Create(code: string, c: Course) returns (r: SaveOutcome)
      requires Valid()
      modifies this
      ensures Valid()
      ensures Clean(c).Some? ==> r == Refused(Clean(c).value)
      ensures Clean(c).None? ==> r == (if code in old(courses) then KeyTaken else Saved)
      ensures !r.Saved? ==> unchanged(this)
      ensures courses == if r.Saved? then old(courses)[code := c] else old(courses)
      ensures assignments == old(assignments) && slots == old(slots)
      ensures professors == old(professors) && rooms == old(rooms)
      ensures nextProfessor == old(nextProfessor) && nextRoom == old(nextRoom)
    {
      var refused := Clean(c);
      if refused.Some? {
        return Refused(refused.value);
      }
      if code in courses {
        return KeyTaken;
      }
      courses := courses[code := c];
      r := Saved;
    }

    /** Course.delete: the course's assignments go first, and with them (CASCADE)
        every slot that references them; then the course row. */
    method Delete(code: string)
      requires Valid() && code in courses
      modifies this
      ensures Valid()
      ensures courses == old(courses) - {code}
      ensures assignments == AssignmentsWithout(old(assignments), code)
      ensures slots == WithoutCourse(old(slots), code)
      ensures professors == old(professors) && rooms == old(rooms)
      ensures nextProfessor == old(nextProfessor) && nextRoom == old(nextRoom)
    {
      WithoutCourseMembers(slots, code);
      WithoutCourseKeepsUnique(slots, code);
      ghost var kept := AssignmentsWithout(assignments, code);
      assert Grounded(kept, WithoutCourse(slots, code)) by {
        forall s | s in WithoutCourse(slots, code) ensures SlotKey(s) in kept {
          assert s in slots && SlotKey(s).0 != code;
        }
      }
      assert forall key :: key in kept ==> key.0 in courses - {code};
      assignments := AssignmentsWithout(assignments, code);
      slots := WithoutCourse(slots, code);
      courses := courses - {code};
    }

    /** Deleting a professor: the assignments that named them keep their rows with no professor. */
    method DeleteProfessor(id: int)
      requires Valid() && id in professors
      modifies this
      ensures Valid()
      ensures professors == old(professors) - {id}
      ensures assignments == ClearProfessor(old(assignments), id)
      ensures courses == old(courses) && slots == old(slots) && rooms == old(rooms)
      ensures nextProfessor == old(nextProfessor) && nextRoom == old(nextRoom)
    {
      assignments := ClearProfessor(assignments, id);
      professors := professors - {id};
    }

    /** Deleting a room: the assignments that used it keep their rows with no room. */
    method DeleteRoom(id: int)
      requires Valid() && id in rooms
      modifies this
      ensures Valid()
      ensures rooms == old(rooms) - {id}
      ensures assignments == ClearRoom(old(assignments), id)
      ensures courses == old(courses) && slots == old(slots) && professors == old(professors)
      ensures nextProfessor == old(nextProfessor) && nextRoom == old(nextRoom)
    {
      assignments := ClearRoom(assignments, id);
      rooms := rooms - {id};
    }

    /** Professor.objects.get_or_create(name=name): the one professor of that
        name, a new one when there is none, None (MultipleObjectsReturned) when
        there are several. */
    method GetOrCreateProfessor(name: string) returns (r: Option<int>)
      requires Valid()
      modifies this
      ensures Valid()
      ensures r.None? <==> exists i, j :: i != j && ProfessorNamed(old(professors), i, name) && ProfessorNamed(old(professors), j, name)
      ensures r.Some? ==> ProfessorNamed(professors, r.value, name)
      ensures DistinctNames(old(professors)) ==> r.Some? && DistinctNames(professors)
      ensures (exists i :: ProfessorNamed(old(professors), i, name)) ==>
                professors == old(professors) && nextProfessor == old(nextProfessor) &&
                (r.Some? ==> ProfessorNamed(old(professors), r.value, name))
      ensures (forall i :: !ProfessorNamed(old(professors), i, name)) ==>
                r == Some(old(nextProfessor)) && r.value !in old(professors) &&
                professors == old(professors)[r.value := name]
      ensures courses == old(courses) && assignments == old(assignments) && slots == old(slots)
      ensures rooms == old(rooms) && nextRoom == old(nextRoom)
    {
      if exists i :: i in professors && ProfessorNamed(professors, i, name) {
        var i :| i in professors && ProfessorNamed(professors, i, name);
        if exists j :: j in professors && j != i && ProfessorNamed(professors, j, name) {
          return None;
        }
        return Some(i);
      }
      r := Some(nextProfessor);
      professors := professors[nextProfessor := name];
      nextProfessor := nextProfessor + 1;
    }

    /** Room.objects.get_or_create(number=number); a new room gets an empty type. */
    method GetOrCreateRoom(number: string) returns (r: Option<int>)
      requires Valid()
      modifies this
      ensures Valid()
      ensures r.None? <==> exists i, j :: i != j && RoomNumbered(old(rooms), i, number) && RoomNumbered(old(rooms), j, number)
      ensures r.Some? ==> RoomNumbered(rooms, r.value, number)
      ensures DistinctNumbers(old(rooms)) ==> r.Some? && DistinctNumbers(rooms)
      ensures (exists i :: RoomNumbered(old(rooms), i, number)) ==>
                rooms == old(rooms) && nextRoom == old(nextRoom) &&
                (r.Some? ==> RoomNumbered(old(rooms), r.value, number))
      ensures (forall i :: !RoomNumbered(old(rooms), i, number)) ==>
                r == Some(old(nextRoom)) && r.value !in old(rooms) &&
                rooms == old(rooms)[r.value := Room(number, "")]
      ensures courses == old(courses) && assignments == old(assignments) && slots == old(slots)
      ensures professors == old(professors) && nextProfessor == old(nextProfessor)
    {
      if exists i :: i in rooms && RoomNumbered(rooms, i, number) {
        var i :| i in rooms && RoomNumbered(rooms, i, number);
        if exists j :: j in rooms && j != i && RoomNumbered(rooms, j, number) {
          return None;
        }
        return Some(i);
      }
      r := Some(nextRoom);
      rooms := rooms[nextRoom := Room(number, "")];
      nextRoom := nextRoom + 1;
    }

    /** CourseAssignment create or update_or_create on (course, type): the one
        row of that key gets the staffing. */
    method PutAssignment(key: AssignmentKey, staffing: Staffing)
      requires Valid() && key.0 in courses && Linked(staffing, professors, rooms)
      modifies this
      ensures Valid()
      ensures assignments == old(assignments)[key := staffing]
      ensures courses == old(courses) && slots == old(slots)
      ensures professors == old(professors) && rooms == old(rooms)
      ensures nextProfessor == old(nextProfessor) && nextRoom == old(nextRoom)
    {
      assignments := assignments[key := staffing];
    }

    /** TimeSlot.objects.filter(week=w).delete(). */
    method DeleteWeek(w: int)
      requires Valid()
      modifies this
      ensures Valid()
      ensures slots == Select(old(slots), {w}, false)
      ensures courses == old(courses) && assignments == old(assignments)
      ensures professors == old(professors) && rooms == old(rooms)
      ensures nextProfessor == old(nextProfessor) && nextRoom == old(nextRoom)
    {
      SelectMembers(slots, {w}, false);
      SelectKeepsUnique(slots, {w}, false);
      slots := Select(slots, {w}, false);
    }

    /** TimeSlot.objects.create: refused (IntegrityError) when the cell is taken. */
    method InsertSlot(s: Slot) returns (taken: bool)
      requires Valid() && SlotKey(s) in assignments
      modifies this
      ensures Valid()
      ensures taken == Occupied(old(slots), SlotCell(s))
      ensures slots == if taken then old(slots) else old(slots) + [s]
      ensures courses == old(courses) && assignments == old(assignments)
      ensures professors == old(professors) && rooms == old(rooms)
      ensures nextProfessor == old(nextProfessor) && nextRoom == old(nextRoom)
    {
      taken := exists t :: t in slots && SlotCell(t) == SlotCell(s);
      if !taken {
        UniqueCellsSnoc(slots, s);
        slots := slots + [s];
      }
    }
  }
}
