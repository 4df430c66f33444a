/// update_course in emploi_django/schedule/views.py: fetch a course by code,
/// assign every submitted attribute the instance has, and save it.
module UpdateCourseView {
  import opened Outcomes
  import opened Catalog
  import opened Values
  import opened Attributes
  import opened Tables

  /** The values an attribute's column can store: anything str() turns
      into text for code and title, anything int() converts for the others. */
  predicate Fits(a: Attribute, v: Json) {
    match a
    case Key => TextOf(v).Some?
    case Title => TextOf(v).Some?
    case Credits => IntValue(v).Some?
    case Hours(_) => IntValue(v).Some?
    case Done(_) => IntValue(v).Some?
  }

  /** The instance update_course saves: the stored course (code, c) after
      the setattr loop over `updates`. */
  function Instance(code: string, c: Course, updates: seq<(string, Json)>): Row {
    SetAttrs(RowOf(code, c), updates)
  }

  /** What the database would store from that instance: the new primary key
      and the new course, or None when a value cannot be stored. */
  function Updated(code: string, c: Course, updates: seq<(string, Json)>): Option<(string, Course)> {
    CourseOfRow(Instance(code, c, updates))
  }

  /** The setattr loop: each update whose name hasattr finds overwrites that
      attribute of the instance. */
  method ApplyUpdates(row0: Row, updates: seq<(string, Json)>) returns (row: Row)
    ensures row == SetAttrs(row0, updates)
  {
    row := row0;
    var i := 0;
    while i < |updates|
      invariant 0 <= i <= |updates|
      invariant row == SetAttrs(row0, updates[..i])
    {
      var (name, value) := updates[i];
      assert updates[..i + 1][..i] == updates[..i];
      var a := AttributeNamed(name);
      if a.Some? {
        row := row[a.value := value];
      }
      i := i + 1;
    }
    assert updates[..i] == updates;
  }

  /** update_course: a missing code or course answers 404; otherwise the
      updated instance goes through Course.save. Its guard raising (ValueError
      for hours above the planned ones, TypeError for values Python cannot
      compare) or a value the database cannot store answers 400 with nothing
      written. A save that changed `code` writes the row under the new code
      (overwriting a course already there) and leaves the old row in place. */
  method UpdateCourse(db: Store, code: Option<string>, updates: seq<(string, Json)>) returns (r: Response<()>)
    requires db.Valid()
    modifies db
    ensures db.Valid()
    ensures code.None? || code.value !in old(db.courses) ==> r == NotFound && unchanged(db)
    ensures code.Some? && code.value in old(db.courses) ==>
              var s := SaveInstance(Instance(code.value, old(db.courses)[code.value], updates));
              && (s.Stopped? && s.stop.Over? ==> r == BadRequest(CompletedAbovePlanned) && unchanged(db))
              && (s.Stopped? && s.stop.Incomparable? ==> r == BadRequest(IllTyped) && unchanged(db))
              && (s.Unstorable? ==> r == BadRequest(IllTyped) && unchanged(db))
              && (s.Written? ==> r == Ok(()) && db.courses == old(db.courses)[s.code := s.course])
    ensures db.assignments == old(db.assignments) && db.slots == old(db.slots)
    ensures db.professors == old(db.professors) && db.rooms == old(db.rooms)
    ensures db.nextProfessor == old(db.nextProfessor) && db.nextRoom == old(db.nextRoom)
  {
    if code.None? || code.value !in db.courses {
      return NotFound;
    }
    var row := ApplyUpdates(RowOf(code.value, db.courses[code.value]), updates);
    match SaveInstance(row) {
      case Stopped(stop) =>
        return BadRequest(if stop.Over? then CompletedAbovePlanned else IllTyped);
      case Unstorable =>
        return BadRequest(IllTyped);
      case Written(key, course) =>
        db.Write(key, course);
        r := Ok(());
    }
  }

  /** Some update names the attribute, so one of them is the last to. */
  lemma {:induction false} LastWriteExists(updates: seq<(string, Json)>, a: Attribute)
    requires !Untouched(updates, a)
    ensures exists i :: LastWrite(updates, a, i)
  {
    var n := |updates| - 1;
    if AttributeNamed(updates[n].0) == Some(a) {
      assert LastWrite(updates, a, n);
    } else {
      var init := updates[..n];
      assert !Untouched(init, a) by {
        var i :| 0 <= i < |updates| && AttributeNamed(updates[i].0) == Some(a);
        assert i < n && init[i] == updates[i];
      }
      LastWriteExists(init, a);
      var i :| LastWrite(init, a, i);
      assert init[i] == updates[i];
      assert LastWrite(updates, a, i);
    }
  }

  /** The value an attribute holds after the loop, when some update names it. */
  lemma FinalValue(row: Row, updates: seq<(string, Json)>, a: Attribute) returns (i: int)
    requires !Untouched(updates, a)
    ensures LastWrite(updates, a, i) && Lookup(SetAttrs(row, updates), a) == updates[i].1
  {
    LastWriteExists(updates, a);
    i :| LastWrite(updates, a, i);
    SetAttrsValues(row, updates, a);
  }

  /** Every stored column holds a value of its type. */
  lemma StoredFits(code: string, c: Course, a: Attribute)
    ensures Fits(a, Lookup(RowOf(code, c), a))
  {
    match a
    case Key =>
    case Title =>
    case Credits => assert IntOf(Int(c.credits)) == Parsed(c.credits);
    case Hours(k) => match k { case CM => case TD => case TP => case Exam => case Devoir => }
    case Done(k) => match k { case CM => case TD => case TP => case Exam => case Devoir => }
  }

  /** The database can store the instance exactly when the last value each
      update gives an attribute can be stored in that attribute's column (the
      stored values always can); update_course writes it exactly when, in
      addition, the guard's five comparisons are all False. */
  lemma UpdatedIffFits(code: string, c: Course, updates: seq<(string, Json)>)
    ensures Updated(code, c, updates).Some? <==>
            forall a, i :: LastWrite(updates, a, i) ==> Fits(a, updates[i].1)
    ensures SaveInstance(Instance(code, c, updates)).Written? <==>
            && (forall a, i :: LastWrite(updates, a, i) ==> Fits(a, updates[i].1))
            && (forall k :: Exceeds(Instance(code, c, updates), k) == Some(false))
  {
    var row := SetAttrs(RowOf(code, c), updates);
    if forall a, i :: LastWrite(updates, a, i) ==> Fits(a, updates[i].1) {
      forall a ensures Fits(a, Lookup(row, a)) {
        SetAttrsValues(RowOf(code, c), updates, a);
        if Untouched(updates, a) {
          StoredFits(code, c, a);
        } else {
          var i := FinalValue(RowOf(code, c), updates, a);
        }
      }
      assert Fits(Key, Lookup(row, Key)) && Fits(Title, Lookup(row, Title)) && Fits(Credits, Lookup(row, Credits));
      assert forall k :: Fits(Hours(k), Lookup(row, Hours(k))) && Fits(Done(k), Lookup(row, Done(k)));
      assert WellTyped(row);
    } else {
      var a, i :| LastWrite(updates, a, i) && !Fits(a, updates[i].1);
      SetAttrsValues(RowOf(code, c), updates, a);
      assert Lookup(row, a) == updates[i].1;
      assert !WellTyped(row) by {
        match a
        case Key =>
        case Title =>
        case Credits =>
        case Hours(k) =>
        case Done(k) =>
      }
    }
  }

  /** Updates whose names the instance lacks leave it as it was. */
  lemma {:induction false} UnknownNamesKeepRow(row: Row, updates: seq<(string, Json)>)
    requires forall i :: 0 <= i < |updates| ==> AttributeNamed(updates[i].0).None?
    ensures SetAttrs(row, updates) == row
  {
    if updates != [] {
      var init := updates[..|updates| - 1];
      assert forall i :: 0 <= i < |init| ==> init[i] == updates[i];
      UnknownNamesKeepRow(row, init);
    }
  }

  /** Submitting only names the instance lacks saves a stored course as it
      was, and the guard then judges the stored ints. */
  lemma UpdatedWithoutKnownNames(code: string, c: Course, updates: seq<(string, Json)>)
    requires forall i :: 0 <= i < |updates| ==> AttributeNamed(updates[i].0).None?
    ensures Updated(code, c, updates) == Some((code, c))
    ensures SaveInstance(Instance(code, c, updates)) ==
            if Clean(c).None? then Written(code, c) else Stopped(Over(Clean(c).value))
  {
    UnknownNamesKeepRow(RowOf(code, c), updates);
    RowRoundTrip(code, c);
    SaveStoredRow(code, c);
  }

  /** The guard's comparison for category k on the updated instance: between
      the last values submitted for the two columns, or the stored int for a
      column no update names. */
  lemma UpdatedComparison(code: string, c: Course, updates: seq<(string, Json)>, k: Category)
    ensures var row := Instance(code, c, updates);
            && (Untouched(updates, Hours(k)) && Untouched(updates, Done(k)) ==>
                  Exceeds(row, k) == Some(Completed(c, k) > Planned(c, k)))
            && (forall i, j :: LastWrite(updates, Done(k), i) && LastWrite(updates, Hours(k), j) ==>
                  Exceeds(row, k) == Greater(updates[i].1, updates[j].1))
            && (forall i :: LastWrite(updates, Done(k), i) && Untouched(updates, Hours(k)) ==>
                  Exceeds(row, k) == Greater(updates[i].1, Int(Planned(c, k))))
            && (forall j :: Untouched(updates, Done(k)) && LastWrite(updates, Hours(k), j) ==>
                  Exceeds(row, k) == Greater(Int(Completed(c, k)), updates[j].1))
  {
    SetAttrsValues(RowOf(code, c), updates, Hours(k));
    SetAttrsValues(RowOf(code, c), updates, Done(k));
    RowColumns(code, c, k);
  }

  /** Submitting one int for the planned hours of a category saves the
      course with that column replaced, when the guard accepts it. */
  lemma UpdatedPlannedHours(code: string, c: Course, k: Category, n: int)
    ensures Updated(code, c, [(HoursName(k), Int(n))]) == Some((code, WithPlanned(c, k, n)))
    ensures SaveInstance(Instance(code, c, [(HoursName(k), Int(n))])) ==
            if Clean(WithPlanned(c, k, n)).None? then Written(code, WithPlanned(c, k, n))
            else Stopped(Over(Clean(WithPlanned(c, k, n)).value))
  {
    var updates := [(HoursName(k), Int(n))];
    var row := RowOf(code, c)[Hours(k) := Int(n)];
    ColumnNamesResolve(Hours(k));
    assert updates[..0] == [];
    assert SetAttrs(RowOf(code, c), updates[..0]) == RowOf(code, c);
    assert Instance(code, c, updates) == row;
    PlannedColumnReplaced(code, c, k, n);
    GuardOnInts(row);
  }

  /** The stored row with the planned hours of k replaced by the int n. */
  lemma PlannedColumnReplaced(code: string, c: Course, k: Category, n: int)
    ensures NumericHours(RowOf(code, c)[Hours(k) := Int(n)])
    ensures CourseOfRow(RowOf(code, c)[Hours(k) := Int(n)]) == Some((code, WithPlanned(c, k, n)))
  {
    var row := RowOf(code, c)[Hours(k) := Int(n)];
    var d := WithPlanned(c, k, n);
    forall j ensures Lookup(row, Hours(j)) == Int(Planned(d, j)) && Lookup(row, Done(j)) == Int(Completed(d, j)) {
      PlannedColumnAt(code, c, k, n, j);
    }
    ReplacedHoursKeep(code, c, Hours(k), Int(n));
    IntsStored(row, code, d);
  }

  /** As written, the guard compares the submitted strings as text: planned
      hours "9" and completed hours "10" pass it ("10" > "9" is False), and
      the write stores the ints 9 and 10, a course above its planned hours
      that no later Course.save of the unchanged row accepts. */
  lemma StringHoursPassGuard(code: string, c: Course)
    requires WithinPlanned(c)
    ensures var s := SaveInstance(Instance(code, c, [("cm_hours", Str("9")), ("cm_completed", Str("10"))]));
            && s == Written(code, WithCompleted(WithPlanned(c, CM, 9), CM, 10))
            && Completed(s.course, CM) > Planned(s.course, CM)
            && !WithinPlanned(s.course)
            && SaveInstance(RowOf(code, s.course)) == Stopped(Over(CM))
  {
    var updates := [("cm_hours", Str("9")), ("cm_completed", Str("10"))];
    var d := WithCompleted(WithPlanned(c, CM, 9), CM, 10);
    var row := Instance(code, c, updates);
    assert updates[..1] == [updates[0]] && updates[..1][..0] == [];
    assert AttributeNamed("cm_hours") == Some(Hours(CM)) && AttributeNamed("cm_completed") == Some(Done(CM));
    assert SetAttrs(RowOf(code, c), updates[..1]) == RowOf(code, c)[Hours(CM) := Str("9")];
    assert row == RowOf(code, c)[Hours(CM) := Str("9")][Done(CM) := Str("10")];
    DigitStringsCompareAsText();
    assert row == RowOf(code, d)[Hours(CM) := Str("9")][Done(CM) := Str("10")];
    StringHoursRow(code, d);
    WithinPlannedEveryCategory(c);
    SaveStoredRow(code, d);
  }

  /** The instance with the CM columns holding the strings "9" and "10"
      passes the guard when the other categories do, and stores the ints. */
  lemma StringHoursRow(code: string, d: Course)
    requires Planned(d, CM) == 9 && Completed(d, CM) == 10
    requires forall k :: k != CM ==> Completed(d, k) <= Planned(d, k)
    ensures SaveInstance(RowOf(code, d)[Hours(CM) := Str("9")][Done(CM) := Str("10")]) == Written(code, d)
  {
    var row := RowOf(code, d)[Hours(CM) := Str("9")][Done(CM) := Str("10")];
    DigitStringsCompareAsText();
    CMColumnsReplaced(code, d, Str("9"), Str("10"));
    var s := SaveInstance(row);
    assert s.Written?;
    assert CourseOfRow(row) == Some((s.code, s.course));
  }

  /** The stored row with the CM columns holding values that convert to d's
      CM hours, and that the guard does not find above each other. */
  lemma CMColumnsReplaced(code: string, d: Course, planned: Json, completed: Json)
    requires IntValue(planned) == Some(Planned(d, CM)) && IntValue(completed) == Some(Completed(d, CM))
    requires Greater(completed, planned) == Some(false)
    requires forall k :: k != CM ==> Completed(d, k) <= Planned(d, k)
    ensures Guard(RowOf(code, d)[Hours(CM) := planned][Done(CM) := completed]).None?
    ensures CourseOfRow(RowOf(code, d)[Hours(CM) := planned][Done(CM) := completed]) == Some((code, d))
  {
    var row := RowOf(code, d)[Hours(CM) := planned][Done(CM) := completed];
    CMColumnsLookups(code, d, planned, completed);
    assert Exceeds(row, CM) == Some(false);
    CMColumnsStored(row, code, d);
  }

  lemma CMColumnsLookups(code: string, d: Course, planned: Json, completed: Json)
    ensures var row := RowOf(code, d)[Hours(CM) := planned][Done(CM) := completed];
            && Lookup(row, Key) == Str(code) && Lookup(row, Title) == Str(d.title) && Lookup(row, Credits) == Int(d.credits)
            && Lookup(row, Hours(CM)) == planned && Lookup(row, Done(CM)) == completed
            && forall k :: k != CM ==> Lookup(row, Hours(k)) == Int(Planned(d, k)) && Lookup(row, Done(k)) == Int(Completed(d, k))
  {
    ReplacedHoursKeep(code, d, Hours(CM), planned);
    forall k | k != CM
      ensures Lookup(RowOf(code, d)[Hours(CM) := planned], Hours(k)) == Int(Planned(d, k))
      ensures Lookup(RowOf(code, d)[Hours(CM) := planned], Done(k)) == Int(Completed(d, k))
    {
      ReplacedColumn(code, d, Hours(CM), planned, k);
    }
  }

  lemma PlannedColumnAt(code: string, c: Course, k: Category, n: int, j: Category)
    ensures Lookup(RowOf(code, c)[Hours(k) := Int(n)], Hours(j)) == Int(Planned(WithPlanned(c, k, n), j))
    ensures Lookup(RowOf(code, c)[Hours(k) := Int(n)], Done(j)) == Int(Completed(WithPlanned(c, k, n), j))
  {
    ReplacedColumn(code, c, Hours(k), Int(n), j);
  }

  lemma CMColumnsStored(row: Row, code: string, d: Course)
    requires Lookup(row, Key) == Str(code) && Lookup(row, Title) == Str(d.title) && Lookup(row, Credits) == Int(d.credits)
    requires IntValue(Lookup(row, Hours(CM))) == Some(Planned(d, CM)) && IntValue(Lookup(row, Done(CM))) == Some(Completed(d, CM))
    requires forall k :: k != CM ==> Lookup(row, Hours(k)) == Int(Planned(d, k)) && Lookup(row, Done(k)) == Int(Completed(d, k))
    ensures CourseOfRow(row) == Some((code, d))
  {
    assert IntOf(Int(d.credits)) == Parsed(d.credits);
    StoresCourse(row, code, d);
  }

  /** The corrected guard, which compares the ints the write stores, refuses
      the same instance. */
  lemma IntendedRefusesStringHours(code: string, c: Course)
    requires WithinPlanned(c)
    ensures IntendedSave(Instance(code, c, [("cm_hours", Str("9")), ("cm_completed", Str("10"))])) == Stopped(Over(CM))
  {
    StringHoursPassGuard(code, c);
  }

  /** The hours of category k in the saved course: the last value
      submitted for them, or the stored ones when none was. */
  lemma UpdatedCategory(code: string, c: Course, updates: seq<(string, Json)>, k: Category)
    requires Updated(code, c, updates).Some?
    ensures var saved := Updated(code, c, updates).value.1;
            && (Untouched(updates, Hours(k)) ==> Planned(saved, k) == Planned(c, k))
            && (Untouched(updates, Done(k)) ==> Completed(saved, k) == Completed(c, k))
            && (forall i :: LastWrite(updates, Hours(k), i) ==> IntValue(updates[i].1) == Some(Planned(saved, k)))
            && (forall i :: LastWrite(updates, Done(k), i) ==> IntValue(updates[i].1) == Some(Completed(saved, k)))
  {
    var row0 := RowOf(code, c);
    var row := SetAttrs(row0, updates);
    var saved := Updated(code, c, updates).value.1;
    assert IntValue(Lookup(row, Hours(k))) == Some(Planned(saved, k));
    assert IntValue(Lookup(row, Done(k))) == Some(Completed(saved, k));
    SetAttrsValues(row0, updates, Hours(k));
    SetAttrsValues(row0, updates, Done(k));
    RowColumns(code, c, k);
  }

  /** The saved primary key: the last `code` or `pk` submitted, or the old one. */
  lemma UpdatedKey(code: string, c: Course, updates: seq<(string, Json)>)
    requires Updated(code, c, updates).Some?
    ensures var key := Updated(code, c, updates).value.0;
            && (Untouched(updates, Key) ==> key == code)
            && (forall i :: LastWrite(updates, Key, i) ==> TextOf(updates[i].1) == Some(key))
  {
    var row0 := RowOf(code, c);
    assert TextOf(Lookup(SetAttrs(row0, updates), Key)) == Some(Updated(code, c, updates).value.0);
    assert Lookup(row0, Key) == Str(code);
    SetAttrsValues(row0, updates, Key);
  }

  /** In the saved course each column holds the last value submitted for it,
      or its stored value when none was; the primary key moves only when
      `code` or `pk` is submitted. */
  lemma UpdatedColumns(code: string, c: Course, updates: seq<(string, Json)>)
    requires Updated(code, c, updates).Some?
    ensures var (key, saved) := Updated(code, c, updates).value;
            && (Untouched(updates, Key) ==> key == code)
            && (forall i :: LastWrite(updates, Key, i) ==> TextOf(updates[i].1) == Some(key))
            && (forall k :: Untouched(updates, Hours(k)) ==> Planned(saved, k) == Planned(c, k))
            && (forall k :: Untouched(updates, Done(k)) ==> Completed(saved, k) == Completed(c, k))
            && (forall k, i :: LastWrite(updates, Hours(k), i) ==> IntValue(updates[i].1) == Some(Planned(saved, k)))
            && (forall k, i :: LastWrite(updates, Done(k), i) ==> IntValue(updates[i].1) == Some(Completed(saved, k)))
  {
    var saved := Updated(code, c, updates).value.1;
    UpdatedKey(code, c, updates);
    forall k ensures
      && (Untouched(updates, Hours(k)) ==> Planned(saved, k) == Planned(c, k))
      && (Untouched(updates, Done(k)) ==> Completed(saved, k) == Completed(c, k))
      && (forall i :: LastWrite(updates, Hours(k), i) ==> IntValue(updates[i].1) == Some(Planned(saved, k)))
      && (forall i :: LastWrite(updates, Done(k), i) ==> IntValue(updates[i].1) == Some(Completed(saved, k)))
    {
      UpdatedCategory(code, c, updates, k);
    }
  }
}
