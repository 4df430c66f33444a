/// The CourseAssignment and TimeSlot tables of emploi_django/schedule/models.py:
/// assignment keys, slots, the (day, period, week) cells they occupy, and the
/// filters the views and the cascades apply to the slot table.
module Grid {
  import opened Outcomes
  import opened Catalog

  /** A CourseAssignment is identified by its course and type (unique_together). */
  type AssignmentKey = (string, SessionType)

  /** The professor and room of one CourseAssignment; both foreign keys are
      nullable and become NULL when the row they reference is deleted. */
  datatype Staffing = Staffing(professor: Option<int>, room: Option<int>)

  /** One row of the Room table. */
  datatype Room = Room(number: string, kind: string)

  /** A cell of the weekly grid; TimeSlot is unique on it. */
  datatype Cell = Cell(day: string, period: string, week: int)

  /** One row of the TimeSlot table; the assignment it references is (course, stype). */
  datatype Slot = Slot(day: string, period: string, week: int, course: string, stype: SessionType)

  function SlotCell(s: Slot): Cell {
    Cell(s.day, s.period, s.week)
  }

  function SlotKey(s: Slot): AssignmentKey {
    (s.course, s.stype)
  }

  /** Some slot of the table sits in the cell. */
  predicate Occupied(slots: seq<Slot>, c: Cell) {
    exists s :: s in slots && SlotCell(s) == c
  }

  /** The occupancy invariant: no two slots share a (day, period, week) cell. */
  predicate UniqueCells(slots: seq<Slot>) {
    forall i, j :: 0 <= i < j < |slots| ==> SlotCell(slots[i]) != SlotCell(slots[j])
  }

  /** Every slot references an existing assignment (its course_assignment foreign key). */
  predicate Grounded(assignments: map<AssignmentKey, Staffing>, slots: seq<Slot>) {
    forall s :: s in slots ==> SlotKey(s) in assignments
  }

  /** The slots, in table order, whose week is in `weeks` (inside) or not in it
      (not inside): TimeSlot.objects.filter(week=...) and its complement. */
  function Select(slots: seq<Slot>, weeks: set<int>, inside: bool): seq<Slot> {
    if slots == [] then []
    else
      var rest := Select(slots[..|slots| - 1], weeks, inside);
      var s := slots[|slots| - 1];
      if (s.week in weeks) == inside then rest + [s] else rest
  }

  /** The slots of one week, in table order. */
  function SlotsOfWeek(slots: seq<Slot>, week: int): seq<Slot> {
    Select(slots, {week}, true)
  }

  /** The slots whose assignment does not belong to the course: what the
      cascade from its assignments leaves. */
  function WithoutCourse(slots: seq<Slot>, code: string): seq<Slot> {
    if slots == [] then []
    else
      var rest := WithoutCourse(slots[..|slots| - 1], code);
      var s := slots[|slots| - 1];
      if s.course != code then rest + [s] else rest
  }

  lemma {:induction false} SelectMembers(slots: seq<Slot>, weeks: set<int>, inside: bool)
    ensures forall s :: s in Select(slots, weeks, inside) <==> s in slots && (s.week in weeks) == inside
  {
    if slots != [] {
      var init := slots[..|slots| - 1];
      SelectMembers(init, weeks, inside);
      assert slots == init + [slots[|slots| - 1]];
    }
  }

  lemma {:induction false} SelectAppend(a: seq<Slot>, b: seq<Slot>, weeks: set<int>, inside: bool)
    ensures Select(a + b, weeks, inside) == Select(a, weeks, inside) + Select(b, weeks, inside)
    decreases |b|
  {
    if b == [] {
      assert a + b == a;
    } else {
      var init := b[..|b| - 1];
      SelectAppend(a, init, weeks, inside);
      assert (a + b)[..|a + b| - 1] == a + init;
    }
  }

  /** A filter that every slot passes keeps the table as it is. */
  lemma {:induction false} SelectAll(slots: seq<Slot>, weeks: set<int>, inside: bool)
    requires forall s :: s in slots ==> (s.week in weeks) == inside
    ensures Select(slots, weeks, inside) == slots
  {
    if slots != [] {
      var init := slots[..|slots| - 1];
      assert forall s :: s in init ==> s in slots;
      SelectAll(init, weeks, inside);
      assert slots == init + [slots[|slots| - 1]];
    }
  }

  /** A filter that no slot passes leaves nothing. */
  lemma {:induction false} SelectNone(slots: seq<Slot>, weeks: set<int>, inside: bool)
    requires forall s :: s in slots ==> (s.week in weeks) != inside
    ensures Select(slots, weeks, inside) == []
  {
    if slots != [] {
      var init := slots[..|slots| - 1];
      assert forall s :: s in init ==> s in slots;
      SelectNone(init, weeks, inside);
    }
  }

  /** Dropping the weeks W and then the weeks V drops the weeks W + V. */
  lemma {:induction false} DropTwice(slots: seq<Slot>, w: set<int>, v: set<int>)
    ensures Select(Select(slots, w, false), v, false) == Select(slots, w + v, false)
  {
    if slots != [] {
      var init := slots[..|slots| - 1];
      var s := slots[|slots| - 1];
      DropTwice(init, w, v);
      if s.week !in w {
        SelectAppend(Select(init, w, false), [s], v, false);
      }
    }
  }

  /** Once the weeks W are dropped, the slots of the weeks V are those of V - W. */
  lemma {:induction false} KeepAfterDrop(slots: seq<Slot>, w: set<int>, v: set<int>)
    ensures Select(Select(slots, w, false), v, true) == Select(slots, v - w, true)
  {
    if slots != [] {
      var init := slots[..|slots| - 1];
      var s := slots[|slots| - 1];
      KeepAfterDrop(init, w, v);
      if s.week !in w {
        SelectAppend(Select(init, w, false), [s], v, true);
      }
    }
  }

  lemma UniqueCellsSnoc(slots: seq<Slot>, s: Slot)
    ensures UniqueCells(slots + [s]) <==> UniqueCells(slots) && !Occupied(slots, SlotCell(s))
  {
    var t := slots + [s];
    if UniqueCells(t) {
      assert forall i, j :: 0 <= i < j < |slots| ==> slots[i] == t[i] && slots[j] == t[j];
      forall x | x in slots ensures SlotCell(x) != SlotCell(s) {
        var i :| 0 <= i < |slots| && slots[i] == x;
        assert t[i] == x && t[|slots|] == s;
      }
    }
    if UniqueCells(slots) && !Occupied(slots, SlotCell(s)) {
      forall i, j | 0 <= i < j < |t| ensures SlotCell(t[i]) != SlotCell(t[j]) {
        if j == |slots| {
          assert t[i] in slots;
        } else {
          assert t[i] == slots[i] && t[j] == slots[j];
        }
      }
    }
  }

  /** Filtering the table by week keeps the occupancy invariant. */
  lemma {:induction false} SelectKeepsUnique(slots: seq<Slot>, weeks: set<int>, inside: bool)
    requires UniqueCells(slots)
    ensures UniqueCells(Select(slots, weeks, inside))
  {
    if slots != [] {
      var init := slots[..|slots| - 1];
      var s := slots[|slots| - 1];
      assert slots == init + [s];
      UniqueCellsSnoc(init, s);
      SelectKeepsUnique(init, weeks, inside);
      if (s.week in weeks) == inside {
        SelectMembers(init, weeks, inside);
        UniqueCellsSnoc(Select(init, weeks, inside), s);
      }
    }
  }

  lemma {:induction false} WithoutCourseMembers(slots: seq<Slot>, code: string)
    ensures forall s :: s in WithoutCourse(slots, code) <==> s in slots && s.course != code
  {
    if slots != [] {
      var init := slots[..|slots| - 1];
      WithoutCourseMembers(init, code);
      assert slots == init + [slots[|slots| - 1]];
    }
  }

  /** The cascade keeps the occupancy invariant. */
  lemma {:induction false} WithoutCourseKeepsUnique(slots: seq<Slot>, code: string)
    requires UniqueCells(slots)
    ensures UniqueCells(WithoutCourse(slots, code))
  {
    if slots != [] {
      var init := slots[..|slots| - 1];
      var s := slots[|slots| - 1];
      assert slots == init + [s];
      UniqueCellsSnoc(init, s);
      WithoutCourseKeepsUnique(init, code);
      if s.course != code {
        WithoutCourseMembers(init, code);
        UniqueCellsSnoc(WithoutCourse(init, code), s);
      }
    }
  }
}
