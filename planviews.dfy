/// The timetable views of emploi_django/schedule/views.py: save_plan, which
/// rewrites the slot table week by week, and the three read views over it
/// (get_plan, get_all_plan, get_schedule).
module PlanViews {
  import opened Outcomes
  import opened Catalog
  import opened Grid
  import opened Plan
  import opened Tables

  /** An item without fault is inserted and the rest of the week follows. */
  lemma ItemPlaced(courses: map<string, Course>, assignments: map<AssignmentKey, Staffing>,
                   slots: seq<Slot>, items: seq<PlanItem>, i: nat)
    requires i < |items| && FaultOf(courses, assignments, slots, items[i]).None?
    ensures InsertItems(courses, assignments, slots, items[i..]) ==
            InsertItems(courses, assignments, slots + [ItemSlot(items[i])], items[i + 1..])
  {
    assert items[i..][0] == items[i] && items[i..][1..] == items[i + 1..];
  }

  /** An item with a fault ends the week, and save_plan, with the table as it stands. */
  lemma ItemFailed(courses: map<string, Course>, assignments: map<AssignmentKey, Staffing>,
                   slots: seq<Slot>, items: seq<PlanItem>, i: nat, f: PlanFault)
    requires i < |items| && FaultOf(courses, assignments, slots, items[i]) == Some(f)
    ensures InsertItems(courses, assignments, slots, items[i..]) == Applied(slots, PlanFailed(items[i], f))
  {
    assert items[i..][0] == items[i];
  }

  /** The body of save_plan's week loop: delete the week's slots, then create
      one slot per item, stopping at the first item that fails. */
  method ReplaceWeekSlots(db: Store, w: int, items: seq<PlanItem>) returns (outcome: PlanResult)
    requires db.Valid()
    modifies db
    ensures db.Valid()
    ensures Applied(db.slots, outcome) == ReplaceWeek(old(db.courses), old(db.assignments), old(db.slots), w, items)
    ensures db.courses == old(db.courses) && db.assignments == old(db.assignments)
    ensures db.professors == old(db.professors) && db.rooms == old(db.rooms)
    ensures db.nextProfessor == old(db.nextProfessor) && db.nextRoom == old(db.nextRoom)
  {
    ghost var courses, assignments := db.courses, db.assignments;
    ghost var goal := ReplaceWeek(courses, assignments, db.slots, w, items);
    db.DeleteWeek(w);
    assert items[0..] == items;
    var i := 0;
    while i < |items|
      invariant 0 <= i <= |items|
      invariant db.Valid()
      invariant db.courses == courses && db.assignments == assignments
      invariant db.professors == old(db.professors) && db.rooms == old(db.rooms)
      invariant db.nextProfessor == old(db.nextProfessor) && db.nextRoom == old(db.nextRoom)
      invariant goal == InsertItems(courses, assignments, db.slots, items[i..])
    {
      var item := items[i];
      if item.courseCode !in db.courses {
        ItemFailed(courses, assignments, db.slots, items, i, CourseMissing);
        return PlanFailed(item, CourseMissing);
      }
      var t := SessionTypeOf(item.stype);
      if t.None? || (item.courseCode, t.value) !in db.assignments {
        ItemFailed(courses, assignments, db.slots, items, i, AssignmentMissing);
        return PlanFailed(item, AssignmentMissing);
      }
      assert SlotCell(ItemSlot(item)) == ItemCell(item);
      ghost var before := db.slots;
      var taken := db.InsertSlot(ItemSlot(item));
      if taken {
        ItemFailed(courses, assignments, db.slots, items, i, CellTaken);
        return PlanFailed(item, CellTaken);
      }
      ItemPlaced(courses, assignments, before, items, i);
      i := i + 1;
    }
    assert items[i..] == [];
    outcome := PlanApplied;
  }

  /** save_plan: group the items by week, then replace each week's slots in
      turn, answering with a server error at the first item whose course or
      assignment is missing or whose cell is taken; weeks already processed
      stay written. `affected` is affected_courses; the progress refresh that
      follows calls a method Course does not have, an error the view
      swallows, so it changes nothing. */
  method SavePlan(db: Store, plan: seq<PlanItem>) returns (outcome: PlanResult, affected: set<string>)
    requires db.Valid()
    modifies db
    ensures db.Valid()
    ensures Applied(db.slots, outcome) == ApplyPlan(old(db.courses), old(db.assignments), old(db.slots), plan)
    ensures affected == set x | x in plan :: x.courseCode
    ensures db.courses == old(db.courses) && db.assignments == old(db.assignments)
    ensures db.professors == old(db.professors) && db.rooms == old(db.rooms)
    ensures db.nextProfessor == old(db.nextProfessor) && db.nextRoom == old(db.nextRoom)
  {
    var weeks, byWeek, codes := GroupByWeek(plan);
    affected := codes;
    ghost var courses, assignments := db.courses, db.assignments;
    ghost var goal := ApplyPlan(courses, assignments, db.slots, plan);
    var k := 0;
    while k < |weeks|
      invariant 0 <= k <= |weeks|
      invariant db.Valid()
      invariant db.courses == courses && db.assignments == assignments
      invariant db.professors == old(db.professors) && db.rooms == old(db.rooms)
      invariant db.nextProfessor == old(db.nextProfessor) && db.nextRoom == old(db.nextRoom)
      invariant goal == ApplyWeeks(courses, assignments, db.slots, plan, weeks[k..])
    {
      var w := weeks[k];
      assert weeks[k..][0] == w && weeks[k..][1..] == weeks[k + 1..];
      var result := ReplaceWeekSlots(db, w, byWeek[w]);
      if result.PlanFailed? {
        return result, affected;
      }
      k := k + 1;
    }
    outcome := PlanApplied;
  }

  /** One entry of get_plan's answer for a slot. */
  function SlotRow(s: Slot): PlanRow {
    PlanRow(s.day, s.period, s.course, TypeName(s.stype))
  }

  /** get_plan(week): the slots of the week, in table order. */
  function GetPlan(slots: seq<Slot>, week: int): (rows: seq<PlanRow>)
    ensures |rows| == |SlotsOfWeek(slots, week)|
    ensures forall row :: row in rows <==> exists s :: s in slots && s.week == week && row == SlotRow(s)
  {
    SelectMembers(slots, {week}, true);
    var rows := PlanRows(SlotsOfWeek(slots, week));
    assert forall i :: 0 <= i < |rows| ==> rows[i] == SlotRow(SlotsOfWeek(slots, week)[i]);
    rows
  }

  /** One entry of get_all_plan's answer. */
  datatype WeekRow = WeekRow(week: int, row: PlanRow)

  /** get_all_plan: every slot, in table order, with its week. */
  function GetAllPlan(slots: seq<Slot>): (rows: seq<WeekRow>)
    ensures |rows| == |slots|
    ensures forall i :: 0 <= i < |slots| ==> rows[i] == WeekRow(slots[i].week, SlotRow(slots[i]))
  {
    seq(|slots|, i requires 0 <= i < |slots| => WeekRow(slots[i].week, SlotRow(slots[i])))
  }

  /** The rows of get_all_plan's answer that carry week w, without the week. */
  function RowsOfWeek(rows: seq<WeekRow>, w: int): seq<PlanRow> {
    if rows == [] then []
    else
      var rest := RowsOfWeek(rows[..|rows| - 1], w);
      var last := rows[|rows| - 1];
      if last.week == w then rest + [last.row] else rest
  }

  lemma PlanRowsSnoc(slots: seq<Slot>, s: Slot)
    ensures PlanRows(slots + [s]) == PlanRows(slots) + [SlotRow(s)]
  {
  }

  /** get_all_plan answers every week at once: its rows of week w, in order
      and without the week, are get_plan's answer for w. */
  lemma {:induction false} AllPlanByWeek(slots: seq<Slot>, w: int)
    ensures RowsOfWeek(GetAllPlan(slots), w) == GetPlan(slots, w)
  {
    if slots != [] {
      var n := |slots| - 1;
      var init := slots[..n];
      AllPlanByWeek(init, w);
      assert GetAllPlan(slots)[..n] == GetAllPlan(init);
      PlanRowsSnoc(SlotsOfWeek(init, w), slots[n]);
    }
  }

  /** One entry of get_schedule's answer: the professor's name and the room number, if any. */
  datatype ScheduleRow = ScheduleRow(day: string, period: string, courseCode: string, stype: string,
                                     professor: string, room: Option<string>)

  /** Every slot of the week is staffed by a professor. */
  predicate Staffed(assignments: map<AssignmentKey, Staffing>, slots: seq<Slot>) {
    forall s :: s in slots ==> SlotKey(s) in assignments && assignments[SlotKey(s)].professor.Some?
  }

  /** get_schedule(week): like get_plan, with the professor's name and the room
      number; a slot whose assignment lost its professor makes the view fail. */
  function GetSchedule(assignments: map<AssignmentKey, Staffing>, professors: map<int, string>,
                       rooms: map<int, Room>, slots: seq<Slot>, week: int): (r: Response<seq<ScheduleRow>>)
    requires Grounded(assignments, slots)
    requires forall key :: key in assignments && assignments[key].professor.Some? ==> assignments[key].professor.value in professors
    requires forall key :: key in assignments && assignments[key].room.Some? ==> assignments[key].room.value in rooms
    ensures r.Ok? || r == ServerError(NullProfessor)
    ensures r.Ok? <==> Staffed(assignments, SlotsOfWeek(slots, week))
    ensures r.Ok? ==> |r.value| == |SlotsOfWeek(slots, week)|
    ensures r.Ok? ==> forall i :: 0 <= i < |r.value| ==>
              var s := SlotsOfWeek(slots, week)[i];
              var staff := assignments[SlotKey(s)];
              && r.value[i].professor == professors[staff.professor.value]
              && r.value[i].room == (if staff.room.Some? then Some(rooms[staff.room.value].number) else None)
              && PlanRow(r.value[i].day, r.value[i].period, r.value[i].courseCode, r.value[i].stype) == SlotRow(s)
  {
    var ofWeek := SlotsOfWeek(slots, week);
    SelectMembers(slots, {week}, true);
    if !Staffed(assignments, ofWeek) then ServerError(NullProfessor)
    else
      Ok(seq(|ofWeek|, i requires 0 <= i < |ofWeek| =>
        var s := ofWeek[i];
        var staff := assignments[SlotKey(s)];
        ScheduleRow(s.day, s.period, s.course, TypeName(s.stype), professors[staff.professor.value],
                    if staff.room.Some? then Some(rooms[staff.room.value].number) else None)))
  }
}
