/// save_plan of emploi_django/schedule/views.py: group the submitted items by
/// week, then for each week delete its slots and insert one slot per item,
/// stopping at the first item that cannot be placed. Nothing is rolled back.
module Plan {
  import opened Outcomes
  import opened Catalog
  import opened Grid

  /** One submitted plan entry; `stype` is the type string as sent. */
  datatype PlanItem = PlanItem(week: int, day: string, period: string, courseCode: string, stype: string)

  /** Why an item could not be placed: Course.DoesNotExist,
      CourseAssignment.DoesNotExist, or the IntegrityError of the (day, period,
      week) uniqueness. The view answers each with a server error. */
  datatype PlanFault = CourseMissing | AssignmentMissing | CellTaken

  datatype PlanResult = PlanApplied | PlanFailed(item: PlanItem, fault: PlanFault)

  /** The slot table after the call, and how the call ended. */
  datatype Applied = Applied(slots: seq<Slot>, result: PlanResult)

  /** One row of get_plan: a slot without its week. */
  datatype PlanRow = PlanRow(day: string, period: string, courseCode: string, stype: string)

  function ItemCell(x: PlanItem): Cell {
    Cell(x.day, x.period, x.week)
  }

  /** The slot TimeSlot.objects.create makes for an item whose assignment resolved. */
  function ItemSlot(x: PlanItem): Slot {
    Slot(x.day, x.period, x.week, x.courseCode, SessionTypeOf(x.stype).GetOr(CM))
  }

  function SlotsOf(items: seq<PlanItem>): seq<Slot> {
    seq(|items|, i requires 0 <= i < |items| => ItemSlot(items[i]))
  }

  function ItemRow(x: PlanItem): PlanRow {
    PlanRow(x.day, x.period, x.courseCode, x.stype)
  }

  function ItemRows(items: seq<PlanItem>): seq<PlanRow> {
    seq(|items|, i requires 0 <= i < |items| => ItemRow(items[i]))
  }

  /** The rows get_plan builds from slots, in table order. */
  function PlanRows(slots: seq<Slot>): seq<PlanRow> {
    seq(|slots|, i requires 0 <= i < |slots| =>
      PlanRow(slots[i].day, slots[i].period, slots[i].course, TypeName(slots[i].stype)))
  }

  /** The keys of slots_by_week in insertion order: each week once, where it first appears. */
  function Weeks(plan: seq<PlanItem>): seq<int> {
    if plan == [] then []
    else
      var ws := Weeks(plan[..|plan| - 1]);
      var w := plan[|plan| - 1].week;
      if w in ws then ws else ws + [w]
  }

  /** slots_by_week[w]: the items of week w in submission order. */
  function ItemsOfWeek(plan: seq<PlanItem>, w: int): seq<PlanItem> {
    if plan == [] then []
    else
      var rest := ItemsOfWeek(plan[..|plan| - 1], w);
      var x := plan[|plan| - 1];
      if x.week == w then rest + [x] else rest
  }

  /** The groups of the weeks ws, one after another. */
  function Flatten(plan: seq<PlanItem>, ws: seq<int>): seq<PlanItem> {
    if ws == [] then [] else ItemsOfWeek(plan, ws[0]) + Flatten(plan, ws[1..])
  }

  function WeekSet(ws: seq<int>): set<int> {
    set w | w in ws
  }

  predicate Distinct(ws: seq<int>) {
    forall i, j :: 0 <= i < j < |ws| ==> ws[i] != ws[j]
  }

  /** No two items claim the same (day, period, week) cell. */
  predicate NoSharedCell(items: seq<PlanItem>) {
    forall i, j :: 0 <= i < j < |items| ==> ItemCell(items[i]) != ItemCell(items[j])
  }

  /** The item names an existing course and an existing assignment of that course and type. */
  predicate Resolves(courses: map<string, Course>, assignments: map<AssignmentKey, Staffing>, x: PlanItem) {
    && x.courseCode in courses
    && SessionTypeOf(x.stype).Some?
    && (x.courseCode, SessionTypeOf(x.stype).value) in assignments
  }

  predicate AllResolve(courses: map<string, Course>, assignments: map<AssignmentKey, Staffing>, items: seq<PlanItem>) {
    forall x :: x in items ==> Resolves(courses, assignments, x)
  }

  /** The steps of one item in the order the view takes them: look up the
      course, look up the (course, type) assignment, insert the slot. */
  function FaultOf(courses: map<string, Course>, assignments: map<AssignmentKey, Staffing>,
                   slots: seq<Slot>, x: PlanItem): (r: Option<PlanFault>)
    ensures r == Some(CourseMissing) <==> x.courseCode !in courses
    ensures r == Some(AssignmentMissing) <==> x.courseCode in courses && !Resolves(courses, assignments, x)
    ensures r == Some(CellTaken) <==> Resolves(courses, assignments, x) && Occupied(slots, ItemCell(x))
    ensures r.None? <==> Resolves(courses, assignments, x) && !Occupied(slots, ItemCell(x))
  {
    if x.courseCode !in courses then Some(CourseMissing)
    else match SessionTypeOf(x.stype)
      case None => Some(AssignmentMissing)
      case Some(t) =>
        if (x.courseCode, t) !in assignments then Some(AssignmentMissing)
        else if Occupied(slots, ItemCell(x)) then Some(CellTaken)
        else None
  }

  /** The inner loop of save_plan: insert the items one by one, stopping at the first fault. */
  function InsertItems(courses: map<string, Course>, assignments: map<AssignmentKey, Staffing>,
                       slots: seq<Slot>, items: seq<PlanItem>): Applied
    decreases |items|
  {
    if items == [] then Applied(slots, PlanApplied)
    else match FaultOf(courses, assignments, slots, items[0])
      case Some(f) => Applied(slots, PlanFailed(items[0], f))
      case None => InsertItems(courses, assignments, slots + [ItemSlot(items[0])], items[1..])
  }

  /** One week: delete every slot of the week, then insert its items. */
  function ReplaceWeek(courses: map<string, Course>, assignments: map<AssignmentKey, Staffing>,
                       slots: seq<Slot>, w: int, items: seq<PlanItem>): Applied
  {
    InsertItems(courses, assignments, Select(slots, {w}, false), items)
  }

  /** The outer loop of save_plan over the weeks ws, returning at the first failing week. */
  function ApplyWeeks(courses: map<string, Course>, assignments: map<AssignmentKey, Staffing>,
                      slots: seq<Slot>, plan: seq<PlanItem>, ws: seq<int>): Applied
    decreases |ws|
  {
    if ws == [] then Applied(slots, PlanApplied)
    else
      var r := ReplaceWeek(courses, assignments, slots, ws[0], ItemsOfWeek(plan, ws[0]));
      if r.result.PlanFailed? then r else ApplyWeeks(courses, assignments, r.slots, plan, ws[1..])
  }

  /** save_plan on a slot table: every week of the plan, in order of first appearance. */
  function ApplyPlan(courses: map<string, Course>, assignments: map<AssignmentKey, Staffing>,
                     slots: seq<Slot>, plan: seq<PlanItem>): Applied
  {
    ApplyWeeks(courses, assignments, slots, plan, Weeks(plan))
  }

  // ---------------------------------------------------------------------------
  // Grouping by week

  /** One turn of that loop: the item joins the group of its week, which is
      opened (and its week keyed) when it is the week's first item. */
  method AddToGroup(done: seq<PlanItem>, item: PlanItem, weeks0: seq<int>, byWeek0: map<int, seq<PlanItem>>, affected0: set<string>)
    returns (weeks: seq<int>, byWeek: map<int, seq<PlanItem>>, affected: set<string>)
    requires weeks0 == Weeks(done)
    requires forall w :: w in byWeek0 <==> w in weeks0
    requires forall w :: w in byWeek0 ==> byWeek0[w] == ItemsOfWeek(done, w)
    requires forall w :: w !in byWeek0 ==> ItemsOfWeek(done, w) == []
    requires affected0 == set x | x in done :: x.courseCode
    ensures weeks == Weeks(done + [item])
    ensures forall w :: w in byWeek <==> w in weeks
    ensures forall w :: w in byWeek ==> byWeek[w] == ItemsOfWeek(done + [item], w)
    ensures forall w :: w !in byWeek ==> ItemsOfWeek(done + [item], w) == []
    ensures affected == set x | x in done + [item] :: x.courseCode
  {
    ghost var next := done + [item];
    assert next[..|next| - 1] == done && next[|next| - 1] == item;
    weeks, byWeek := weeks0, byWeek0;
    if item.week !in byWeek {
      byWeek := byWeek[item.week := []];
      weeks := weeks + [item.week];
    }
    byWeek := byWeek[item.week := byWeek[item.week] + [item]];
    affected := affected0 + {item.courseCode};
  }

  /** The first loop of save_plan: slots_by_week (with its keys in insertion
      order) and affected_courses. */
  method GroupByWeek(plan: seq<PlanItem>) returns (weeks: seq<int>, byWeek: map<int, seq<PlanItem>>, affected: set<string>)
    ensures weeks == Weeks(plan)
    ensures forall w :: w in byWeek <==> w in weeks
    ensures forall w :: w in byWeek ==> byWeek[w] == ItemsOfWeek(plan, w)
    ensures affected == set x | x in plan :: x.courseCode
  {
    weeks, byWeek, affected := [], map[], {};
    var i := 0;
    while i < |plan|
      invariant 0 <= i <= |plan|
      invariant weeks == Weeks(plan[..i])
      invariant forall w :: w in byWeek <==> w in weeks
      invariant forall w :: w in byWeek ==> byWeek[w] == ItemsOfWeek(plan[..i], w)
      invariant forall w :: w !in byWeek ==> ItemsOfWeek(plan[..i], w) == []
      invariant affected == set x | x in plan[..i] :: x.courseCode
    {
      assert plan[..i + 1] == plan[..i] + [plan[i]];
      weeks, byWeek, affected := AddToGroup(plan[..i], plan[i], weeks, byWeek, affected);
      i := i + 1;
    }
    assert plan[..i] == plan;
  }

  lemma {:induction false} ItemsOfWeekMembers(plan: seq<PlanItem>, w: int)
    ensures forall x :: x in ItemsOfWeek(plan, w) <==> x in plan && x.week == w
  {
    if plan != [] {
      var init := plan[..|plan| - 1];
      ItemsOfWeekMembers(init, w);
      assert plan == init + [plan[|plan| - 1]];
    }
  }

  /** Every item of the plan puts its week among the keys, each key once, and
      every key has items. */
  lemma {:induction false} WeeksMembers(plan: seq<PlanItem>)
    ensures forall x :: x in plan ==> x.week in Weeks(plan)
    ensures forall w :: w in Weeks(plan) ==> ItemsOfWeek(plan, w) != []
    ensures Distinct(Weeks(plan))
  {
    if plan != [] {
      var init := plan[..|plan| - 1];
      var last := plan[|plan| - 1];
      WeeksMembers(init);
      assert plan == init + [last];
      forall w | w in Weeks(plan) ensures ItemsOfWeek(plan, w) != [] {
        if w != last.week {
          assert w in Weeks(init);
        }
      }
    }
  }

  lemma {:induction false} WeeksOutsideAreEmpty(plan: seq<PlanItem>, w: int)
    requires w !in Weeks(plan)
    ensures ItemsOfWeek(plan, w) == []
  {
    if plan != [] {
      WeeksOutsideAreEmpty(plan[..|plan| - 1], w);
    }
  }

  lemma {:induction false} FlattenMembers(plan: seq<PlanItem>, ws: seq<int>)
    ensures forall x :: x in Flatten(plan, ws) ==> x.week in ws && x in plan
  {
    if ws != [] {
      FlattenMembers(plan, ws[1..]);
      ItemsOfWeekMembers(plan, ws[0]);
    }
  }

  // ---------------------------------------------------------------------------
  // Slots made from items

  lemma SlotsOfAppend(a: seq<PlanItem>, b: seq<PlanItem>)
    ensures SlotsOf(a + b) == SlotsOf(a) + SlotsOf(b)
  {
  }

  lemma SlotsOfMembers(items: seq<PlanItem>)
    ensures forall x :: x in items ==> ItemSlot(x) in SlotsOf(items)
    ensures forall t :: t in SlotsOf(items) ==> exists x :: x in items && t == ItemSlot(x)
  {
    forall x | x in items ensures ItemSlot(x) in SlotsOf(items) {
      var i :| 0 <= i < |items| && items[i] == x;
      assert SlotsOf(items)[i] == ItemSlot(x);
    }
    forall t | t in SlotsOf(items) ensures exists x :: x in items && t == ItemSlot(x) {
      var i :| 0 <= i < |SlotsOf(items)| && SlotsOf(items)[i] == t;
      assert items[i] in items;
    }
  }

  /** A cell is taken by the slots of some items iff one of those items names it. */
  lemma OccupiedBySlotsOf(items: seq<PlanItem>, c: Cell)
    ensures Occupied(SlotsOf(items), c) <==> exists k :: 0 <= k < |items| && ItemCell(items[k]) == c
  {
    if Occupied(SlotsOf(items), c) {
      var t :| t in SlotsOf(items) && SlotCell(t) == c;
      var k :| 0 <= k < |items| && SlotsOf(items)[k] == t;
      assert ItemCell(items[k]) == c;
    }
    if exists k :: 0 <= k < |items| && ItemCell(items[k]) == c {
      var k :| 0 <= k < |items| && ItemCell(items[k]) == c;
      assert SlotsOf(items)[k] in SlotsOf(items);
    }
  }

  lemma ConcatAssoc(a: seq<Slot>, b: seq<Slot>, c: seq<Slot>)
    ensures (a + b) + c == a + (b + c)
  {
  }

  lemma SlotsOfCons(items: seq<PlanItem>, i: nat)
    requires i < |items|
    ensures SlotsOf(items[..i + 1]) == [ItemSlot(items[0])] + SlotsOf(items[1..][..i])
  {
    assert items[..i + 1] == [items[0]] + items[1..][..i];
    SlotsOfAppend([items[0]], items[1..][..i]);
  }

  // ---------------------------------------------------------------------------
  // One week

  /** No fault before item k of the rest, and none at the first item, means
      no fault before item k + 1 of the whole. */
  lemma NoFaultsCons(courses: map<string, Course>, assignments: map<AssignmentKey, Staffing>,
                     base: seq<Slot>, items: seq<PlanItem>, k: nat)
    requires k < |items| && FaultOf(courses, assignments, base, items[0]).None?
    requires forall i :: 0 <= i < k ==>
               FaultOf(courses, assignments, base + [ItemSlot(items[0])] + SlotsOf(items[1..][..i]), items[1..][i]).None?
    ensures forall i :: 0 <= i < k + 1 ==> FaultOf(courses, assignments, base + SlotsOf(items[..i]), items[i]).None?
  {
    forall i | 0 <= i < k + 1
      ensures FaultOf(courses, assignments, base + SlotsOf(items[..i]), items[i]).None?
    {
      if 0 < i {
        SlotsOfCons(items, i - 1);
        assert items[i] == items[1..][i - 1];
      } else {
        assert items[..0] == [];
        assert base + SlotsOf(items[..0]) == base;
      }
    }
  }

  /** The inner loop stops at the first item j whose fault is set, after
      inserting exactly the items before it. */
  lemma {:induction false} InsertItemsProgress(courses: map<string, Course>, assignments: map<AssignmentKey, Staffing>,
                                               base: seq<Slot>, items: seq<PlanItem>) returns (j: nat)
    ensures j <= |items|
    ensures InsertItems(courses, assignments, base, items).slots == base + SlotsOf(items[..j])
    ensures forall i :: 0 <= i < j ==> FaultOf(courses, assignments, base + SlotsOf(items[..i]), items[i]).None?
    ensures j < |items| ==> FaultOf(courses, assignments, base + SlotsOf(items[..j]), items[j]).Some?
    ensures InsertItems(courses, assignments, base, items).result ==
            if j == |items| then PlanApplied
            else PlanFailed(items[j], FaultOf(courses, assignments, base + SlotsOf(items[..j]), items[j]).value)
    decreases |items|
  {
    assert items[..0] == [];
    assert base + SlotsOf(items[..0]) == base;
    if items == [] {
      return 0;
    }
    if FaultOf(courses, assignments, base, items[0]).Some? {
      return 0;
    }
    var s0 := ItemSlot(items[0]);
    assert InsertItems(courses, assignments, base, items) == InsertItems(courses, assignments, base + [s0], items[1..]);
    var k := InsertItemsProgress(courses, assignments, base + [s0], items[1..]);
    j := k + 1;
    var prefix := SlotsOf(items[1..][..k]);
    SlotsOfCons(items, k);
    ConcatAssoc(base, [s0], prefix);
    assert base + SlotsOf(items[..j]) == base + [s0] + prefix;
    NoFaultsCons(courses, assignments, base, items, k);
    if j < |items| {
      assert items[j] == items[1..][k];
    }
  }

  /** The inner loop inserts every item iff no item meets a fault when its turn comes. */
  lemma InsertItemsAppliedIff(courses: map<string, Course>, assignments: map<AssignmentKey, Staffing>,
                              base: seq<Slot>, items: seq<PlanItem>)
    ensures InsertItems(courses, assignments, base, items).result.PlanApplied? <==>
            forall i :: 0 <= i < |items| ==> FaultOf(courses, assignments, base + SlotsOf(items[..i]), items[i]).None?
    ensures InsertItems(courses, assignments, base, items).result.PlanApplied? ==>
            InsertItems(courses, assignments, base, items).slots == base + SlotsOf(items)
  {
    var j := InsertItemsProgress(courses, assignments, base, items);
    assert items[..|items|] == items;
  }

  /** With the week's slots deleted, the slots of other weeks cannot clash with an item of that week. */
  lemma FaultInClearedWeek(courses: map<string, Course>, assignments: map<AssignmentKey, Staffing>,
                           slots: seq<Slot>, w: int, extra: seq<Slot>, x: PlanItem)
    requires x.week == w
    ensures FaultOf(courses, assignments, Select(slots, {w}, false) + extra, x) == FaultOf(courses, assignments, extra, x)
  {
    SelectMembers(slots, {w}, false);
    var all := Select(slots, {w}, false) + extra;
    assert Occupied(all, ItemCell(x)) <==> Occupied(extra, ItemCell(x)) by {
      if Occupied(all, ItemCell(x)) {
        var t :| t in all && SlotCell(t) == ItemCell(x);
        assert t in extra;
      }
      if Occupied(extra, ItemCell(x)) {
        var t :| t in extra && SlotCell(t) == ItemCell(x);
        assert t in all;
      }
    }
  }

  /** The items of one week go in, one after another, from an empty week. */
  predicate WeekPlaceable(courses: map<string, Course>, assignments: map<AssignmentKey, Staffing>, items: seq<PlanItem>) {
    forall i :: 0 <= i < |items| ==> FaultOf(courses, assignments, SlotsOf(items[..i]), items[i]).None?
  }

  /** A week goes in iff all its items resolve and no two share a cell. */
  lemma WeekPlaceableIff(courses: map<string, Course>, assignments: map<AssignmentKey, Staffing>, items: seq<PlanItem>)
    ensures WeekPlaceable(courses, assignments, items) <==>
            AllResolve(courses, assignments, items) && NoSharedCell(items)
  {
    forall i | 0 <= i < |items| {
      OccupiedBySlotsOf(items[..i], ItemCell(items[i]));
    }
    if WeekPlaceable(courses, assignments, items) {
      forall x | x in items ensures Resolves(courses, assignments, x) {
        var i :| 0 <= i < |items| && items[i] == x;
      }
      forall i, j | 0 <= i < j < |items| ensures ItemCell(items[i]) != ItemCell(items[j]) {
        assert items[..j][i] == items[i];
      }
    }
    if AllResolve(courses, assignments, items) && NoSharedCell(items) {
      forall i | 0 <= i < |items|
        ensures FaultOf(courses, assignments, SlotsOf(items[..i]), items[i]).None?
      {
        assert items[i] in items;
        assert forall k :: 0 <= k < i ==> items[..i][k] == items[k];
      }
    }
  }

  /** ReplaceWeek succeeds iff the week's items can be placed, whatever the
      table held; then the week holds exactly those items' slots. */
  lemma ReplaceWeekAppliedIff(courses: map<string, Course>, assignments: map<AssignmentKey, Staffing>,
                              slots: seq<Slot>, w: int, items: seq<PlanItem>)
    requires forall x :: x in items ==> x.week == w
    ensures ReplaceWeek(courses, assignments, slots, w, items).result.PlanApplied? <==>
            WeekPlaceable(courses, assignments, items)
    ensures ReplaceWeek(courses, assignments, slots, w, items).result.PlanApplied? ==>
            ReplaceWeek(courses, assignments, slots, w, items).slots == Select(slots, {w}, false) + SlotsOf(items)
  {
    InsertItemsAppliedIff(courses, assignments, Select(slots, {w}, false), items);
    forall i | 0 <= i < |items| {
      FaultInClearedWeek(courses, assignments, slots, w, SlotsOf(items[..i]), items[i]);
    }
  }

  // ---------------------------------------------------------------------------
  // Whole plan: when it succeeds

  lemma NoSharedCellSnoc(items: seq<PlanItem>, x: PlanItem)
    ensures NoSharedCell(items + [x]) <==>
            NoSharedCell(items) && forall y :: y in items ==> ItemCell(y) != ItemCell(x)
  {
    var t := items + [x];
    if NoSharedCell(t) {
      assert forall i, j :: 0 <= i < j < |items| ==> items[i] == t[i] && items[j] == t[j];
      forall y | y in items ensures ItemCell(y) != ItemCell(x) {
        var i :| 0 <= i < |items| && items[i] == y;
        assert t[i] == y && t[|items|] == x;
      }
    }
    if NoSharedCell(items) && forall y :: y in items ==> ItemCell(y) != ItemCell(x) {
      forall i, j | 0 <= i < j < |t| ensures ItemCell(t[i]) != ItemCell(t[j]) {
        if j == |items| {
          assert t[i] in items;
        } else {
          assert t[i] == items[i] && t[j] == items[j];
        }
      }
    }
  }

  /** No week group shares a cell. */
  ghost predicate NoSharedCellInAnyWeek(plan: seq<PlanItem>) {
    forall w :: NoSharedCell(ItemsOfWeek(plan, w))
  }

  /** All week groups of ws can be placed. */
  predicate WeeksPlaceable(courses: map<string, Course>, assignments: map<AssignmentKey, Staffing>,
                           plan: seq<PlanItem>, ws: seq<int>) {
    forall k :: 0 <= k < |ws| ==> WeekPlaceable(courses, assignments, ItemsOfWeek(plan, ws[k]))
  }

  /** Cells of different weeks differ, so the plan shares no cell iff no week group does. */
  lemma {:induction false} NoSharedCellByWeek(plan: seq<PlanItem>)
    ensures NoSharedCell(plan) <==> NoSharedCellInAnyWeek(plan)
  {
    if plan == [] {
      forall w ensures NoSharedCell(ItemsOfWeek(plan, w)) {
      }
    } else {
      var p := plan[..|plan| - 1];
      var x := plan[|plan| - 1];
      assert plan == p + [x];
      NoSharedCellByWeek(p);
      NoSharedCellSnoc(p, x);
      ItemsOfWeekMembers(p, x.week);
      NoSharedCellSnoc(ItemsOfWeek(p, x.week), x);
      assert forall w :: ItemsOfWeek(plan, w) == if x.week == w then ItemsOfWeek(p, w) + [x] else ItemsOfWeek(p, w);
      if NoSharedCell(plan) {
        assert NoSharedCellInAnyWeek(p);
        forall w ensures NoSharedCell(ItemsOfWeek(plan, w)) {
          assert NoSharedCell(ItemsOfWeek(p, w));
        }
      }
      if NoSharedCellInAnyWeek(plan) {
        forall w ensures NoSharedCell(ItemsOfWeek(p, w)) {
          assert NoSharedCell(ItemsOfWeek(plan, w));
          if w == x.week {
            NoSharedCellSnoc(ItemsOfWeek(p, w), x);
          }
        }
        assert NoSharedCell(p);
        forall y | y in p ensures ItemCell(y) != ItemCell(x) {
          if y.week == x.week {
            assert y in ItemsOfWeek(p, x.week);
            assert NoSharedCell(ItemsOfWeek(plan, x.week));
          }
        }
      }
    }
  }

  /** Each week group goes in iff the whole plan resolves and shares no cell. */
  lemma PlanPlaceableByWeek(courses: map<string, Course>, assignments: map<AssignmentKey, Staffing>, plan: seq<PlanItem>)
    ensures WeeksPlaceable(courses, assignments, plan, Weeks(plan)) <==>
            AllResolve(courses, assignments, plan) && NoSharedCell(plan)
  {
    var ws := Weeks(plan);
    WeeksMembers(plan);
    NoSharedCellByWeek(plan);
    forall w
      ensures WeekPlaceable(courses, assignments, ItemsOfWeek(plan, w)) <==>
              AllResolve(courses, assignments, ItemsOfWeek(plan, w)) && NoSharedCell(ItemsOfWeek(plan, w))
      ensures forall x :: x in ItemsOfWeek(plan, w) <==> x in plan && x.week == w
    {
      WeekPlaceableIff(courses, assignments, ItemsOfWeek(plan, w));
      ItemsOfWeekMembers(plan, w);
    }
    if WeeksPlaceable(courses, assignments, plan, ws) {
      forall x | x in plan ensures Resolves(courses, assignments, x) {
        var k :| 0 <= k < |ws| && ws[k] == x.week;
        assert x in ItemsOfWeek(plan, ws[k]);
      }
      forall w ensures NoSharedCell(ItemsOfWeek(plan, w)) {
        if w in ws {
          var k :| 0 <= k < |ws| && ws[k] == w;
        } else {
          WeeksOutsideAreEmpty(plan, w);
        }
      }
    }
  }

  /** The outer loop runs to the end iff every week group can be placed. */
  lemma {:induction false} ApplyWeeksAppliedIff(courses: map<string, Course>, assignments: map<AssignmentKey, Staffing>,
                                                slots: seq<Slot>, plan: seq<PlanItem>, ws: seq<int>)
    ensures ApplyWeeks(courses, assignments, slots, plan, ws).result.PlanApplied? <==>
            WeeksPlaceable(courses, assignments, plan, ws)
    decreases |ws|
  {
    if ws != [] {
      var g := ItemsOfWeek(plan, ws[0]);
      ItemsOfWeekMembers(plan, ws[0]);
      ReplaceWeekAppliedIff(courses, assignments, slots, ws[0], g);
      var r := ReplaceWeek(courses, assignments, slots, ws[0], g);
      ApplyWeeksAppliedIff(courses, assignments, r.slots, plan, ws[1..]);
      assert forall k :: 0 < k < |ws| ==> ws[k] == ws[1..][k - 1];
    }
  }

  /** save_plan succeeds iff every item names an existing course and
      assignment and no two items claim the same cell, whatever the table held. */
  lemma PlanAppliedIff(courses: map<string, Course>, assignments: map<AssignmentKey, Staffing>,
                       slots: seq<Slot>, plan: seq<PlanItem>)
    ensures ApplyPlan(courses, assignments, slots, plan).result.PlanApplied? <==>
            AllResolve(courses, assignments, plan) && NoSharedCell(plan)
  {
    ApplyWeeksAppliedIff(courses, assignments, slots, plan, Weeks(plan));
    PlanPlaceableByWeek(courses, assignments, plan);
  }

  lemma {:induction false} SelectOfFlatten(plan: seq<PlanItem>, ws: seq<int>, w: int)
    requires Distinct(ws)
    ensures Select(SlotsOf(Flatten(plan, ws)), {w}, true) == if w in ws then SlotsOf(ItemsOfWeek(plan, w)) else []
  {
    if ws == [] {
      SelectNone([], {w}, true);
    } else {
      var g := ItemsOfWeek(plan, ws[0]);
      var rest := ws[1..];
      assert Distinct(rest);
      SelectOfFlatten(plan, rest, w);
      SlotsOfAppend(g, Flatten(plan, rest));
      SelectAppend(SlotsOf(g), SlotsOf(Flatten(plan, rest)), {w}, true);
      ItemsOfWeekMembers(plan, ws[0]);
      SlotsOfMembers(g);
      if ws[0] == w {
        SelectAll(SlotsOf(g), {w}, true);
        assert w !in rest;
      } else {
        SelectNone(SlotsOf(g), {w}, true);
      }
    }
  }

  /** Slots just written into week w survive dropping other weeks v. */
  lemma ClearedWeekSurvives(slots: seq<Slot>, w: int, items: seq<PlanItem>, v: set<int>)
    requires w !in v
    requires forall x :: x in items ==> x.week == w
    ensures Select(Select(slots, {w}, false) + SlotsOf(items), v, false) ==
            Select(slots, {w} + v, false) + SlotsOf(items)
  {
    SelectAppend(Select(slots, {w}, false), SlotsOf(items), v, false);
    DropTwice(slots, {w}, v);
    SlotsOfMembers(items);
    SelectAll(SlotsOf(items), v, false);
  }

  /** A successful first week: its new slots follow the other weeks' old
      ones, and the later weeks then drop only their own slots. */
  lemma FirstWeekApplied(courses: map<string, Course>, assignments: map<AssignmentKey, Staffing>,
                         slots: seq<Slot>, plan: seq<PlanItem>, ws: seq<int>)
    requires ws != [] && ws[0] !in ws[1..]
    requires ReplaceWeek(courses, assignments, slots, ws[0], ItemsOfWeek(plan, ws[0])).result.PlanApplied?
    ensures Select(ReplaceWeek(courses, assignments, slots, ws[0], ItemsOfWeek(plan, ws[0])).slots, WeekSet(ws[1..]), false) +
            SlotsOf(Flatten(plan, ws[1..])) ==
            Select(slots, WeekSet(ws), false) + SlotsOf(Flatten(plan, ws))
  {
    var w := ws[0];
    var g := ItemsOfWeek(plan, w);
    var rest := ws[1..];
    ItemsOfWeekMembers(plan, w);
    ReplaceWeekAppliedIff(courses, assignments, slots, w, g);
    ClearedWeekSurvives(slots, w, g, WeekSet(rest));
    assert {w} + WeekSet(rest) == WeekSet(ws);
    SlotsOfAppend(g, Flatten(plan, rest));
    ConcatAssoc(Select(slots, WeekSet(ws), false), SlotsOf(g), SlotsOf(Flatten(plan, rest)));
  }

  lemma {:induction false} ApplyWeeksApplied(courses: map<string, Course>, assignments: map<AssignmentKey, Staffing>,
                                             slots: seq<Slot>, plan: seq<PlanItem>, ws: seq<int>)
    requires Distinct(ws)
    requires ApplyWeeks(courses, assignments, slots, plan, ws).result.PlanApplied?
    ensures ApplyWeeks(courses, assignments, slots, plan, ws).slots ==
            Select(slots, WeekSet(ws), false) + SlotsOf(Flatten(plan, ws))
    decreases |ws|
  {
    if ws == [] {
      assert WeekSet(ws) == {};
      SelectAll(slots, {}, false);
      assert slots + SlotsOf([]) == slots;
    } else {
      var rest := ws[1..];
      var r1 := ReplaceWeek(courses, assignments, slots, ws[0], ItemsOfWeek(plan, ws[0]));
      assert r1.result.PlanApplied?;
      assert Distinct(rest) by {
        assert forall i :: 0 <= i < |rest| ==> rest[i] == ws[i + 1];
      }
      assert ws[0] !in rest by {
        assert forall i :: 0 <= i < |rest| ==> rest[i] == ws[i + 1];
      }
      ApplyWeeksApplied(courses, assignments, r1.slots, plan, rest);
      FirstWeekApplied(courses, assignments, slots, plan, ws);
    }
  }

  /** After a successful save_plan the table is: the slots of the weeks the
      plan does not name, in their old order, then the plan's slots week by week. */
  lemma PlanSuccessTable(courses: map<string, Course>, assignments: map<AssignmentKey, Staffing>,
                         slots: seq<Slot>, plan: seq<PlanItem>)
    requires ApplyPlan(courses, assignments, slots, plan).result.PlanApplied?
    ensures ApplyPlan(courses, assignments, slots, plan).slots ==
            Select(slots, WeekSet(Weeks(plan)), false) + SlotsOf(Flatten(plan, Weeks(plan)))
  {
    WeeksMembers(plan);
    ApplyWeeksApplied(courses, assignments, slots, plan, Weeks(plan));
  }

  /** After a successful save_plan each named week holds exactly its items'
      slots in submission order, and every other week is as it was. */
  lemma PlanSuccessWeek(courses: map<string, Course>, assignments: map<AssignmentKey, Staffing>,
                        slots: seq<Slot>, plan: seq<PlanItem>, w: int)
    requires ApplyPlan(courses, assignments, slots, plan).result.PlanApplied?
    ensures SlotsOfWeek(ApplyPlan(courses, assignments, slots, plan).slots, w) ==
            if w in Weeks(plan) then SlotsOf(ItemsOfWeek(plan, w)) else SlotsOfWeek(slots, w)
  {
    var ws := Weeks(plan);
    var big := WeekSet(ws);
    WeeksMembers(plan);
    PlanSuccessTable(courses, assignments, slots, plan);
    SelectAppend(Select(slots, big, false), SlotsOf(Flatten(plan, ws)), {w}, true);
    KeepAfterDrop(slots, big, {w});
    SelectOfFlatten(plan, ws, w);
    if w in ws {
      assert {w} - big == {};
      SelectNone(slots, {}, true);
    } else {
      assert {w} - big == {w};
    }
  }

  /** get_plan after a successful save_plan reads back each named week's items as submitted. */
  lemma PlanReadBack(courses: map<string, Course>, assignments: map<AssignmentKey, Staffing>,
                     slots: seq<Slot>, plan: seq<PlanItem>, w: int)
    requires ApplyPlan(courses, assignments, slots, plan).result.PlanApplied?
    requires w in Weeks(plan)
    ensures PlanRows(SlotsOfWeek(ApplyPlan(courses, assignments, slots, plan).slots, w)) ==
            ItemRows(ItemsOfWeek(plan, w))
  {
    PlanSuccessWeek(courses, assignments, slots, plan, w);
    PlanAppliedIff(courses, assignments, slots, plan);
    var g := ItemsOfWeek(plan, w);
    ItemsOfWeekMembers(plan, w);
    forall i | 0 <= i < |g| ensures PlanRows(SlotsOf(g))[i] == ItemRows(g)[i] {
      assert g[i] in plan;
    }
  }

  /** Applying a plan that succeeded a second time changes nothing. */
  lemma PlanIdempotent(courses: map<string, Course>, assignments: map<AssignmentKey, Staffing>,
                       slots: seq<Slot>, plan: seq<PlanItem>)
    requires ApplyPlan(courses, assignments, slots, plan).result.PlanApplied?
    ensures ApplyPlan(courses, assignments, ApplyPlan(courses, assignments, slots, plan).slots, plan) ==
            ApplyPlan(courses, assignments, slots, plan)
  {
    var r := ApplyPlan(courses, assignments, slots, plan);
    var ws := Weeks(plan);
    var big := WeekSet(ws);
    var added := SlotsOf(Flatten(plan, ws));
    PlanAppliedIff(courses, assignments, slots, plan);
    PlanAppliedIff(courses, assignments, r.slots, plan);
    var r2 := ApplyPlan(courses, assignments, r.slots, plan);
    assert r2.result.PlanApplied?;
    PlanSuccessTable(courses, assignments, slots, plan);
    PlanSuccessTable(courses, assignments, r.slots, plan);
    assert Select(r.slots, big, false) == Select(slots, big, false) by {
      SelectAppend(Select(slots, big, false), added, big, false);
      DropTwice(slots, big, big);
      assert big + big == big;
      FlattenMembers(plan, ws);
      SlotsOfMembers(Flatten(plan, ws));
      SelectNone(added, big, false);
      assert Select(slots, big, false) + [] == Select(slots, big, false);
    }
    assert r2.slots == r.slots;
  }

  // ---------------------------------------------------------------------------
  // Whole plan: in every case

  lemma InsertItemsFrame(courses: map<string, Course>, assignments: map<AssignmentKey, Staffing>,
                         base: seq<Slot>, items: seq<PlanItem>, big: set<int>)
    requires forall x :: x in items ==> x.week in big
    ensures Select(InsertItems(courses, assignments, base, items).slots, big, false) == Select(base, big, false)
  {
    var j := InsertItemsProgress(courses, assignments, base, items);
    SelectAppend(base, SlotsOf(items[..j]), big, false);
    assert forall x :: x in items[..j] ==> x in items;
    SlotsOfMembers(items[..j]);
    SelectNone(SlotsOf(items[..j]), big, false);
  }

  lemma {:induction false} ApplyWeeksFrame(courses: map<string, Course>, assignments: map<AssignmentKey, Staffing>,
                                           slots: seq<Slot>, plan: seq<PlanItem>, ws: seq<int>, big: set<int>)
    requires WeekSet(ws) <= big
    ensures Select(ApplyWeeks(courses, assignments, slots, plan, ws).slots, big, false) == Select(slots, big, false)
    decreases |ws|
  {
    if ws != [] {
      var w := ws[0];
      var g := ItemsOfWeek(plan, w);
      var r1 := ReplaceWeek(courses, assignments, slots, w, g);
      assert Select(r1.slots, big, false) == Select(slots, big, false) by {
        ItemsOfWeekMembers(plan, w);
        InsertItemsFrame(courses, assignments, Select(slots, {w}, false), g, big);
        DropTwice(slots, {w}, big);
        assert {w} + big == big;
      }
      if r1.result.PlanApplied? {
        ApplyWeeksFrame(courses, assignments, r1.slots, plan, ws[1..], big);
      }
    }
  }

  /** Whether save_plan succeeds or stops early, the weeks the plan does not
      name keep their slots. */
  lemma PlanKeepsOtherWeeks(courses: map<string, Course>, assignments: map<AssignmentKey, Staffing>,
                            slots: seq<Slot>, plan: seq<PlanItem>, w: int)
    requires w !in Weeks(plan)
    ensures SlotsOfWeek(ApplyPlan(courses, assignments, slots, plan).slots, w) == SlotsOfWeek(slots, w)
  {
    var big := WeekSet(Weeks(plan));
    var r := ApplyPlan(courses, assignments, slots, plan);
    ApplyWeeksFrame(courses, assignments, slots, plan, Weeks(plan), big);
    KeepAfterDrop(r.slots, big, {w});
    KeepAfterDrop(slots, big, {w});
    assert {w} - big == {w};
  }

  /** Item j of week ws[k] is where save_plan stops: every earlier week goes
      in whole, the items of week ws[k] before j go in, and item j meets the
      reported fault. */
  predicate StopsAt(courses: map<string, Course>, assignments: map<AssignmentKey, Staffing>,
                    plan: seq<PlanItem>, ws: seq<int>, k: nat, j: nat, result: PlanResult) {
    && k < |ws| && j < |ItemsOfWeek(plan, ws[k])|
    && WeeksPlaceable(courses, assignments, plan, ws[..k])
    && (forall i :: 0 <= i < j ==>
          FaultOf(courses, assignments, SlotsOf(ItemsOfWeek(plan, ws[k])[..i]), ItemsOfWeek(plan, ws[k])[i]).None?)
    && result.PlanFailed?
    && result.item == ItemsOfWeek(plan, ws[k])[j]
    && FaultOf(courses, assignments, SlotsOf(ItemsOfWeek(plan, ws[k])[..j]), ItemsOfWeek(plan, ws[k])[j]) == Some(result.fault)
  }

  /** The table left by a stop at item j of week ws[k]: the weeks up to ws[k]
      cleared, the earlier weeks' items, then the items of week ws[k] before j. */
  function StoppedTable(slots: seq<Slot>, plan: seq<PlanItem>, ws: seq<int>, k: nat, j: nat): seq<Slot>
    requires k < |ws| && j <= |ItemsOfWeek(plan, ws[k])|
  {
    Select(slots, WeekSet(ws[..k + 1]), false) + SlotsOf(Flatten(plan, ws[..k])) +
    SlotsOf(ItemsOfWeek(plan, ws[k])[..j])
  }

  lemma FirstWeekFailure(courses: map<string, Course>, assignments: map<AssignmentKey, Staffing>,
                         slots: seq<Slot>, plan: seq<PlanItem>, ws: seq<int>) returns (j: nat)
    requires ws != []
    requires ReplaceWeek(courses, assignments, slots, ws[0], ItemsOfWeek(plan, ws[0])).result.PlanFailed?
    ensures StopsAt(courses, assignments, plan, ws, 0, j, ApplyWeeks(courses, assignments, slots, plan, ws).result)
    ensures ApplyWeeks(courses, assignments, slots, plan, ws).slots == StoppedTable(slots, plan, ws, 0, j)
  {
    var w := ws[0];
    var g := ItemsOfWeek(plan, w);
    var base := Select(slots, {w}, false);
    ItemsOfWeekMembers(plan, w);
    j := InsertItemsProgress(courses, assignments, base, g);
    forall i | 0 <= i <= j && i < |g|
      ensures FaultOf(courses, assignments, base + SlotsOf(g[..i]), g[i]) ==
              FaultOf(courses, assignments, SlotsOf(g[..i]), g[i])
    {
      FaultInClearedWeek(courses, assignments, slots, w, SlotsOf(g[..i]), g[i]);
    }
    assert ws[..1] == [w];
    assert WeekSet(ws[..1]) == {w};
    assert ws[..0] == [];
    assert SlotsOf(Flatten(plan, ws[..0])) == [];
    assert base + [] == base;
  }

  lemma ShiftStop(courses: map<string, Course>, assignments: map<AssignmentKey, Staffing>,
                  slots: seq<Slot>, plan: seq<PlanItem>, ws: seq<int>, k: nat, j: nat)
    requires ws != []
    requires ReplaceWeek(courses, assignments, slots, ws[0], ItemsOfWeek(plan, ws[0])).result.PlanApplied?
    requires StopsAt(courses, assignments, plan, ws[1..], k, j,
                     ApplyWeeks(courses, assignments, ReplaceWeek(courses, assignments, slots, ws[0], ItemsOfWeek(plan, ws[0])).slots,
                                plan, ws[1..]).result)
    ensures StopsAt(courses, assignments, plan, ws, k + 1, j, ApplyWeeks(courses, assignments, slots, plan, ws).result)
  {
    var rest := ws[1..];
    var g := ItemsOfWeek(plan, ws[0]);
    var r1 := ReplaceWeek(courses, assignments, slots, ws[0], g);
    assert ApplyWeeks(courses, assignments, slots, plan, ws).result == ApplyWeeks(courses, assignments, r1.slots, plan, rest).result;
    assert ws[k + 1] == rest[k];
    assert WeekPlaceable(courses, assignments, g) by {
      ItemsOfWeekMembers(plan, ws[0]);
      ReplaceWeekAppliedIff(courses, assignments, slots, ws[0], g);
    }
    assert WeeksPlaceable(courses, assignments, plan, ws[..k + 1]) by {
      var pre := ws[..k + 1];
      forall i | 0 <= i < k + 1 ensures WeekPlaceable(courses, assignments, ItemsOfWeek(plan, pre[i])) {
        if i != 0 {
          assert pre[i] == rest[..k][i - 1];
        }
      }
    }
  }

  /** The table after the first week's replacement, stopped k weeks further
      on, is the original table stopped k + 1 weeks on. */
  lemma ShiftStoppedTable(slots: seq<Slot>, replaced: seq<Slot>, plan: seq<PlanItem>, ws: seq<int>, k: nat, j: nat)
    requires Distinct(ws) && ws != []
    requires replaced == Select(slots, {ws[0]}, false) + SlotsOf(ItemsOfWeek(plan, ws[0]))
    requires k < |ws[1..]| && j <= |ItemsOfWeek(plan, ws[1..][k])|
    ensures StoppedTable(replaced, plan, ws[1..], k, j) == StoppedTable(slots, plan, ws, k + 1, j)
  {
    var w := ws[0];
    var rest := ws[1..];
    var g := ItemsOfWeek(plan, w);
    var v := WeekSet(rest[..k + 1]);
    var cleared := Select(slots, WeekSet(ws[..k + 2]), false);
    var tail := SlotsOf(ItemsOfWeek(plan, rest[k])[..j]);
    assert Select(replaced, v, false) == cleared + SlotsOf(g) by {
      ItemsOfWeekMembers(plan, w);
      assert w !in v;
      ClearedWeekSurvives(slots, w, g, v);
      assert ws[..k + 2] == [w] + rest[..k + 1];
      assert {w} + v == WeekSet(ws[..k + 2]);
    }
    assert SlotsOf(Flatten(plan, ws[..k + 1])) == SlotsOf(g) + SlotsOf(Flatten(plan, rest[..k])) by {
      assert ws[..k + 1][0] == w && ws[..k + 1][1..] == rest[..k];
      SlotsOfAppend(g, Flatten(plan, rest[..k]));
    }
    assert ws[k + 1] == rest[k];
    ConcatAssoc(cleared, SlotsOf(g), SlotsOf(Flatten(plan, rest[..k])));
    assert StoppedTable(replaced, plan, rest, k, j) == Select(replaced, v, false) + SlotsOf(Flatten(plan, rest[..k])) + tail;
    assert StoppedTable(slots, plan, ws, k + 1, j) == cleared + SlotsOf(Flatten(plan, ws[..k + 1])) + tail;
  }

  lemma ShiftTable(courses: map<string, Course>, assignments: map<AssignmentKey, Staffing>,
                   slots: seq<Slot>, plan: seq<PlanItem>, ws: seq<int>, k: nat, j: nat)
    requires Distinct(ws) && ws != []
    requires ReplaceWeek(courses, assignments, slots, ws[0], ItemsOfWeek(plan, ws[0])).result.PlanApplied?
    requires k < |ws[1..]| && j <= |ItemsOfWeek(plan, ws[1..][k])|
    requires ApplyWeeks(courses, assignments, ReplaceWeek(courses, assignments, slots, ws[0], ItemsOfWeek(plan, ws[0])).slots,
                        plan, ws[1..]).slots ==
             StoppedTable(ReplaceWeek(courses, assignments, slots, ws[0], ItemsOfWeek(plan, ws[0])).slots, plan, ws[1..], k, j)
    ensures ApplyWeeks(courses, assignments, slots, plan, ws).slots == StoppedTable(slots, plan, ws, k + 1, j)
  {
    var w := ws[0];
    var g := ItemsOfWeek(plan, w);
    var r1 := ReplaceWeek(courses, assignments, slots, w, g);
    assert r1.slots == Select(slots, {w}, false) + SlotsOf(g) by {
      ItemsOfWeekMembers(plan, w);
      ReplaceWeekAppliedIff(courses, assignments, slots, w, g);
    }
    ShiftStoppedTable(slots, r1.slots, plan, ws, k, j);
    assert ApplyWeeks(courses, assignments, slots, plan, ws).slots == ApplyWeeks(courses, assignments, r1.slots, plan, ws[1..]).slots;
  }

  /** The exact state of a failed ApplyWeeks. */
  lemma {:induction false} ApplyWeeksFailure(courses: map<string, Course>, assignments: map<AssignmentKey, Staffing>,
                                             slots: seq<Slot>, plan: seq<PlanItem>, ws: seq<int>) returns (k: nat, j: nat)
    requires Distinct(ws)
    requires ApplyWeeks(courses, assignments, slots, plan, ws).result.PlanFailed?
    ensures StopsAt(courses, assignments, plan, ws, k, j, ApplyWeeks(courses, assignments, slots, plan, ws).result)
    ensures k < |ws| && j <= |ItemsOfWeek(plan, ws[k])|
    ensures ApplyWeeks(courses, assignments, slots, plan, ws).slots == StoppedTable(slots, plan, ws, k, j)
    decreases |ws|
  {
    var r1 := ReplaceWeek(courses, assignments, slots, ws[0], ItemsOfWeek(plan, ws[0]));
    if r1.result.PlanFailed? {
      k := 0;
      j := FirstWeekFailure(courses, assignments, slots, plan, ws);
    } else {
      assert Distinct(ws[1..]);
      var k1, j1 := ApplyWeeksFailure(courses, assignments, r1.slots, plan, ws[1..]);
      ShiftStop(courses, assignments, slots, plan, ws, k1, j1);
      ShiftTable(courses, assignments, slots, plan, ws, k1, j1);
      k, j := k1 + 1, j1;
    }
  }

  /** The exact state save_plan leaves when it stops at an item: every week
      before the failing one has been replaced in full, the failing week has
      been cleared and holds the items before the failing one, later weeks are
      untouched, and the fault is the one the failing item meets. */
  lemma PlanFailureState(courses: map<string, Course>, assignments: map<AssignmentKey, Staffing>,
                         slots: seq<Slot>, plan: seq<PlanItem>) returns (k: nat, j: nat)
    requires ApplyPlan(courses, assignments, slots, plan).result.PlanFailed?
    ensures k < |Weeks(plan)| && j < |ItemsOfWeek(plan, Weeks(plan)[k])|
    ensures WeeksPlaceable(courses, assignments, plan, Weeks(plan)[..k])
    ensures var g := ItemsOfWeek(plan, Weeks(plan)[k]);
            && (forall i :: 0 <= i < j ==> FaultOf(courses, assignments, SlotsOf(g[..i]), g[i]).None?)
            && ApplyPlan(courses, assignments, slots, plan).result.item == g[j]
            && FaultOf(courses, assignments, SlotsOf(g[..j]), g[j]) == Some(ApplyPlan(courses, assignments, slots, plan).result.fault)
            && ApplyPlan(courses, assignments, slots, plan).slots ==
               Select(slots, WeekSet(Weeks(plan)[..k + 1]), false) +
               SlotsOf(Flatten(plan, Weeks(plan)[..k])) + SlotsOf(g[..j])
    ensures var g := ItemsOfWeek(plan, Weeks(plan)[k]);
            ApplyPlan(courses, assignments, slots, plan).result.fault == CellTaken ==>
              exists i :: 0 <= i < j && ItemCell(g[i]) == ItemCell(g[j])
  {
    WeeksMembers(plan);
    k, j := ApplyWeeksFailure(courses, assignments, slots, plan, Weeks(plan));
    var g := ItemsOfWeek(plan, Weeks(plan)[k]);
    OccupiedBySlotsOf(g[..j], ItemCell(g[j]));
  }

  // ---------------------------------------------------------------------------
  // The grid invariants

  lemma {:induction false} InsertItemsKeepsGrid(courses: map<string, Course>, assignments: map<AssignmentKey, Staffing>,
                                                slots: seq<Slot>, items: seq<PlanItem>)
    requires UniqueCells(slots) && Grounded(assignments, slots)
    ensures UniqueCells(InsertItems(courses, assignments, slots, items).slots)
    ensures Grounded(assignments, InsertItems(courses, assignments, slots, items).slots)
    decreases |items|
  {
    if items != [] && FaultOf(courses, assignments, slots, items[0]).None? {
      var t := ItemSlot(items[0]);
      UniqueCellsSnoc(slots, t);
      InsertItemsKeepsGrid(courses, assignments, slots + [t], items[1..]);
    }
  }

  lemma {:induction false} ApplyWeeksKeepsGrid(courses: map<string, Course>, assignments: map<AssignmentKey, Staffing>,
                                               slots: seq<Slot>, plan: seq<PlanItem>, ws: seq<int>)
    requires UniqueCells(slots) && Grounded(assignments, slots)
    ensures UniqueCells(ApplyWeeks(courses, assignments, slots, plan, ws).slots)
    ensures Grounded(assignments, ApplyWeeks(courses, assignments, slots, plan, ws).slots)
    decreases |ws|
  {
    if ws != [] {
      var base := Select(slots, {ws[0]}, false);
      SelectKeepsUnique(slots, {ws[0]}, false);
      SelectMembers(slots, {ws[0]}, false);
      InsertItemsKeepsGrid(courses, assignments, base, ItemsOfWeek(plan, ws[0]));
      var r1 := ReplaceWeek(courses, assignments, slots, ws[0], ItemsOfWeek(plan, ws[0]));
      ApplyWeeksKeepsGrid(courses, assignments, r1.slots, plan, ws[1..]);
    }
  }

  /** save_plan, whether it succeeds or not, keeps the slot table free of
      shared cells and every slot pointing at an existing assignment. */
  lemma PlanKeepsGrid(courses: map<string, Course>, assignments: map<AssignmentKey, Staffing>,
                      slots: seq<Slot>, plan: seq<PlanItem>)
    requires UniqueCells(slots) && Grounded(assignments, slots)
    ensures UniqueCells(ApplyPlan(courses, assignments, slots, plan).slots)
    ensures Grounded(assignments, ApplyPlan(courses, assignments, slots, plan).slots)
  {
    ApplyWeeksKeepsGrid(courses, assignments, slots, plan, Weeks(plan));
  }
}
