/// The attribute view of a Course instance that update_course works on: the
/// columns of models.py reachable by name (plus `pk`), the setattr loop over
/// the submitted updates, and how the saved row is read back.
module Attributes {
  import opened Outcomes
  import opened Catalog
  import opened Values

  /** An attribute of a Course instance that maps to a column. */
  datatype Attribute = Key | Title | Credits | Hours(k: Category) | Done(k: Category)

  /** The instance before save: every attribute holds whatever was assigned to it. */
  type Row = map<Attribute, Json>

  function HoursName(k: Category): string {
    match k
    case CM => "cm_hours"
    case TD => "td_hours"
    case TP => "tp_hours"
    case Exam => "exam_hours"
    case Devoir => "devoir_hours"
  }

  function DoneName(k: Category): string {
    match k
    case CM => "cm_completed"
    case TD => "td_completed"
    case TP => "tp_completed"
    case Exam => "exam_completed"
    case Devoir => "devoir_completed"
  }

  /** The column name of an attribute. */
  function ColumnName(a: Attribute): string {
    match a
    case Key => "code"
    case Title => "title"
    case Credits => "credits"
    case Hours(k) => HoursName(k)
    case Done(k) => DoneName(k)
  }

  /** The names hasattr(course, name) finds among the columns: every column
      name, and `pk`, which Django aliases to the primary key `code`. */
  const AttributeNames: map<string, Attribute> :=
    map["code" := Key, "pk" := Key, "title" := Title, "credits" := Credits,
        "cm_hours" := Hours(CM), "td_hours" := Hours(TD), "tp_hours" := Hours(TP),
        "exam_hours" := Hours(Exam), "devoir_hours" := Hours(Devoir),
        "cm_completed" := Done(CM), "td_completed" := Done(TD), "tp_completed" := Done(TP),
        "exam_completed" := Done(Exam), "devoir_completed" := Done(Devoir)]

  /** The attribute a name reaches, if any. */
  function AttributeNamed(name: string): Option<Attribute> {
    if name in AttributeNames then Some(AttributeNames[name]) else None
  }

  /** Every column is reachable under its own name, and under no other name
      but `pk` for the primary key. */
  lemma ColumnNamesResolve(a: Attribute)
    ensures AttributeNamed(ColumnName(a)) == Some(a)
    ensures forall name :: AttributeNamed(name) == Some(a) ==> name == ColumnName(a) || (a == Key && name == "pk")
  {
    match a
    case Key =>
    case Title =>
    case Credits =>
    case Hours(k) => assert ColumnName(a) == HoursName(k);
    case Done(k) => assert ColumnName(a) == DoneName(k);
  }

  function Lookup(row: Row, a: Attribute): Json {
    if a in row then row[a] else Null
  }

  /** The instance Course.objects.get returns for the stored row (code, c). */
  function RowOf(code: string, c: Course): Row {
    map[Key := Str(code), Title := Str(c.title), Credits := Int(c.credits),
        Hours(CM) := Int(c.cmHours), Hours(TD) := Int(c.tdHours), Hours(TP) := Int(c.tpHours),
        Hours(Exam) := Int(c.examHours), Hours(Devoir) := Int(c.devoirHours),
        Done(CM) := Int(c.cmCompleted), Done(TD) := Int(c.tdCompleted), Done(TP) := Int(c.tpCompleted),
        Done(Exam) := Int(c.examCompleted), Done(Devoir) := Int(c.devoirCompleted)]
  }

  /** The setattr loop of update_course: each update whose name is an
      attribute overwrites it; other names are skipped. */
  function SetAttrs(row: Row, updates: seq<(string, Json)>): Row {
    if updates == [] then row
    else
      var before := SetAttrs(row, updates[..|updates| - 1]);
      var (name, value) := updates[|updates| - 1];
      match AttributeNamed(name)
      case Some(a) => before[a := value]
      case None => before
  }

  /** No update names the attribute. */
  predicate Untouched(updates: seq<(string, Json)>, a: Attribute) {
    forall i :: 0 <= i < |updates| ==> AttributeNamed(updates[i].0) != Some(a)
  }

  /** Update i is the last one naming the attribute. */
  predicate LastWrite(updates: seq<(string, Json)>, a: Attribute, i: int) {
    && 0 <= i < |updates|
    && AttributeNamed(updates[i].0) == Some(a)
    && forall j :: i < j < |updates| ==> AttributeNamed(updates[j].0) != Some(a)
  }

  lemma SetAttrsLast(row: Row, updates: seq<(string, Json)>, a: Attribute)
    requires updates != []
    ensures Lookup(SetAttrs(row, updates), a) ==
            if AttributeNamed(updates[|updates| - 1].0) == Some(a) then updates[|updates| - 1].1
            else Lookup(SetAttrs(row, updates[..|updates| - 1]), a)
  {
  }

  /** After the loop an attribute holds the value of the last update naming
      it, or its old value when no update names it; unknown names change nothing. */
  lemma {:induction false} SetAttrsValues(row: Row, updates: seq<(string, Json)>, a: Attribute)
    ensures Untouched(updates, a) ==> Lookup(SetAttrs(row, updates), a) == Lookup(row, a)
    ensures forall i :: LastWrite(updates, a, i) ==> Lookup(SetAttrs(row, updates), a) == updates[i].1
  {
    if updates != [] {
      var init := updates[..|updates| - 1];
      var n := |updates| - 1;
      SetAttrsValues(row, init, a);
      SetAttrsLast(row, updates, a);
      if AttributeNamed(updates[n].0) == Some(a) {
        forall i | LastWrite(updates, a, i) ensures i == n {
        }
      } else {
        if Untouched(updates, a) {
          assert Untouched(init, a) by {
            forall i | 0 <= i < n ensures AttributeNamed(init[i].0) != Some(a) {
              assert init[i] == updates[i];
            }
          }
        }
        forall i | LastWrite(updates, a, i)
          ensures Lookup(SetAttrs(row, updates), a) == updates[i].1
        {
          assert i < n;
          assert LastWrite(init, a, i) by {
            assert init[i] == updates[i];
            forall j | i < j < n ensures AttributeNamed(init[j].0) != Some(a) {
              assert init[j] == updates[j];
            }
          }
        }
      }
    }
  }

  /** An integer column at save: IntegerField converts the value with int(). */
  function IntValue(v: Json): Option<int> {
    match IntOf(v)
    case Parsed(n) => Some(n)
    case _ => None
  }

  /** A text column at save: CharField turns an int or a bool into its str();
      None is refused by the NOT NULL column. */
  function TextOf(v: Json): (r: Option<string>)
    ensures v.Str? ==> r == Some(v.s)
    ensures v.Int? ==> r == Some(ShowInt(v.i))
    ensures r.None? <==> v.Null? || v.Composite?
  {
    match v
    case Str(s) => Some(s)
    case Int(i) => Some(ShowInt(i))
    case Bool(b) => Some(if b then "True" else "False")
    case Null => None
    case Composite(_) => None
  }

  /** Every attribute holds a value its column can store. */
  predicate WellTyped(row: Row) {
    && TextOf(Lookup(row, Key)).Some?
    && TextOf(Lookup(row, Title)).Some?
    && IntValue(Lookup(row, Credits)).Some?
    && (forall k :: IntValue(Lookup(row, Hours(k))).Some?)
    && (forall k :: IntValue(Lookup(row, Done(k))).Some?)
  }

  /** The (code, course) the database stores from the instance, or None when
      a value cannot be stored in its column. */
  function CourseOfRow(row: Row): (r: Option<(string, Course)>)
    ensures r.Some? <==> WellTyped(row)
    ensures r.Some? ==> TextOf(Lookup(row, Key)) == Some(r.value.0)
    ensures r.Some? ==> TextOf(Lookup(row, Title)) == Some(r.value.1.title)
    ensures r.Some? ==> IntValue(Lookup(row, Credits)) == Some(r.value.1.credits)
    ensures r.Some? ==> forall k :: Some(Planned(r.value.1, k)) == IntValue(Lookup(row, Hours(k)))
    ensures r.Some? ==> forall k :: Some(Completed(r.value.1, k)) == IntValue(Lookup(row, Done(k)))
  {
    if !WellTyped(row) then None
    else
      var h := (k: Category) => IntValue(Lookup(row, Hours(k))).value;
      var d := (k: Category) => IntValue(Lookup(row, Done(k))).value;
      Some((TextOf(Lookup(row, Key)).value,
            Course(TextOf(Lookup(row, Title)).value, IntValue(Lookup(row, Credits)).value,
                   h(CM), h(TD), h(TP), h(Exam), h(Devoir),
                   d(CM), d(TD), d(TP), d(Exam), d(Devoir))))
  }

  /** The guard's comparison `completed > planned` for one category, on the
      values the instance holds (None: Python raises TypeError). */
  function Exceeds(row: Row, k: Category): Option<bool> {
    Greater(Lookup(row, Done(k)), Lookup(row, Hours(k)))
  }

  /** Where the guard of Course.save stops: a comparison that raised
      TypeError, or the ValueError for a category over its planned hours. */
  datatype GuardStop = Incomparable(k: Category) | Over(k: Category)

  function GuardAt(row: Row, k: Category): Option<GuardStop> {
    match Exceeds(row, k)
    case None => Some(Incomparable(k))
    case Some(above) => if above then Some(Over(k)) else None
  }

  /** The guard of Course.save, comparisons in the order CM, TD, TP, exam,
      devoir; None when all five are False and the write goes ahead. */
  function Guard(row: Row): (r: Option<GuardStop>)
    ensures r.None? <==> forall k :: Exceeds(row, k) == Some(false)
    ensures r.Some? ==> forall k :: Rank(k) < Rank(r.value.k) ==> Exceeds(row, k) == Some(false)
    ensures r.Some? && r.value.Over? ==> Exceeds(row, r.value.k) == Some(true)
    ensures r.Some? && r.value.Incomparable? ==> Exceeds(row, r.value.k).None?
  {
    if GuardAt(row, CM).Some? then GuardAt(row, CM)
    else if GuardAt(row, TD).Some? then GuardAt(row, TD)
    else if GuardAt(row, TP).Some? then GuardAt(row, TP)
    else if GuardAt(row, Exam).Some? then GuardAt(row, Exam)
    else
      PassesEveryCategory(row);
      GuardAt(row, Devoir)
  }

  lemma PassesEveryCategory(row: Row)
    ensures (forall k :: Exceeds(row, k) == Some(false)) <==>
            GuardAt(row, CM).None? && GuardAt(row, TD).None? && GuardAt(row, TP).None? &&
            GuardAt(row, Exam).None? && GuardAt(row, Devoir).None?
  {
    if GuardAt(row, CM).None? && GuardAt(row, TD).None? && GuardAt(row, TP).None? &&
       GuardAt(row, Exam).None? && GuardAt(row, Devoir).None? {
      forall k ensures Exceeds(row, k) == Some(false) {
        match k { case CM => case TD => case TP => case Exam => case Devoir => }
      }
    }
  }

  /** What Course.save does with an instance: the guard first, then the
      write, which fails when a value cannot be stored. */
  datatype Saving = Stopped(stop: GuardStop) | Unstorable | Written(code: string, course: Course)

  function SaveInstance(row: Row): (r: Saving)
    ensures r.Stopped? <==> Guard(row).Some?
    ensures r.Stopped? ==> r.stop == Guard(row).value
    ensures r.Written? <==> Guard(row).None? && WellTyped(row)
    ensures r.Written? ==> CourseOfRow(row) == Some((r.code, r.course))
  {
    if Guard(row).Some? then Stopped(Guard(row).value)
    else match CourseOfRow(row)
      case None => Unstorable
      case Some((code, c)) => Written(code, c)
  }

  /** The hours columns of the instance all hold numbers (ints or bools). */
  predicate NumericHours(row: Row) {
    forall k :: NumberOf(Lookup(row, Hours(k))).Some? && NumberOf(Lookup(row, Done(k))).Some?
  }

  /** On an instance whose hours hold numbers, the guard is Catalog.Clean of
      the course the write would store. */
  lemma {:induction false} GuardOnInts(row: Row)
    requires NumericHours(row)
    requires WellTyped(row)
    ensures Guard(row) == if Clean(CourseOfRow(row).value.1).None? then None
                          else Some(Over(Clean(CourseOfRow(row).value.1).value))
  {
    var c := CourseOfRow(row).value.1;
    forall k ensures Exceeds(row, k) == Some(Completed(c, k) > Planned(c, k)) {
      assert IntValue(Lookup(row, Hours(k))) == NumberOf(Lookup(row, Hours(k)));
      assert IntValue(Lookup(row, Done(k))) == NumberOf(Lookup(row, Done(k)));
    }
    if Clean(c).None? {
      WithinPlannedEveryCategory(c);
    } else {
      var k := Clean(c).value;
      assert Exceeds(row, k) == Some(true);
      assert GuardAt(row, k) == Some(Over(k));
      forall j | Rank(j) < Rank(k) ensures GuardAt(row, j).None? {
        assert Completed(c, j) <= Planned(c, j);
      }
      match k { case CM => case TD => case TP => case Exam => case Devoir => }
    }
  }

  /** The fix the guard evidently intends: compare the hours as the integers
      the write stores, so a saved course is always within its planned hours. */
  function IntendedSave(row: Row): (r: Saving)
    ensures r.Written? ==> CourseOfRow(row) == Some((r.code, r.course)) && WithinPlanned(r.course)
    ensures r.Stopped? ==> r.stop.Over? && CourseOfRow(row).Some? &&
                           Completed(CourseOfRow(row).value.1, r.stop.k) > Planned(CourseOfRow(row).value.1, r.stop.k)
    ensures r.Unstorable? <==> !WellTyped(row)
  {
    match CourseOfRow(row)
    case None => Unstorable
    case Some((code, c)) => if Clean(c).None? then Written(code, c) else Stopped(Over(Clean(c).value))
  }

  /** An instance whose values convert to those of (code, d) stores d under code. */
  lemma StoresCourse(row: Row, code: string, d: Course)
    requires TextOf(Lookup(row, Key)) == Some(code) && TextOf(Lookup(row, Title)) == Some(d.title)
    requires IntValue(Lookup(row, Credits)) == Some(d.credits)
    requires forall k :: IntValue(Lookup(row, Hours(k))) == Some(Planned(d, k)) && IntValue(Lookup(row, Done(k))) == Some(Completed(d, k))
    ensures CourseOfRow(row) == Some((code, d))
  {
    assert WellTyped(row);
    var saved := CourseOfRow(row).value;
    SameCourse(saved.1, d);
  }

  /** The stored row holds the course's hours under their columns. */
  lemma RowColumns(code: string, c: Course, k: Category)
    ensures Lookup(RowOf(code, c), Hours(k)) == Int(Planned(c, k))
    ensures Lookup(RowOf(code, c), Done(k)) == Int(Completed(c, k))
  {
    match k { case CM => case TD => case TP => case Exam => case Devoir => }
  }

  /** The stored row with one attribute reassigned. */
  lemma ReplacedColumn(code: string, c: Course, a: Attribute, v: Json, k: Category)
    ensures Lookup(RowOf(code, c)[a := v], Hours(k)) == if a == Hours(k) then v else Int(Planned(c, k))
    ensures Lookup(RowOf(code, c)[a := v], Done(k)) == if a == Done(k) then v else Int(Completed(c, k))
  {
    RowColumns(code, c, k);
  }

  /** Reassigning an hours column keeps the key, title and credits. */
  lemma ReplacedHoursKeep(code: string, c: Course, a: Attribute, v: Json)
    requires a.Hours? || a.Done?
    ensures Lookup(RowOf(code, c)[a := v], Key) == Str(code)
    ensures Lookup(RowOf(code, c)[a := v], Title) == Str(c.title)
    ensures Lookup(RowOf(code, c)[a := v], Credits) == Int(c.credits)
  {
  }

  /** A course is determined by its title, credits and hours. */
  lemma SameCourse(c: Course, d: Course)
    requires c.title == d.title && c.credits == d.credits
    requires forall k :: Planned(c, k) == Planned(d, k) && Completed(c, k) == Completed(d, k)
    ensures c == d
  {
    assert Planned(c, CM) == Planned(d, CM) && Planned(c, TD) == Planned(d, TD) && Planned(c, TP) == Planned(d, TP);
    assert Planned(c, Exam) == Planned(d, Exam) && Planned(c, Devoir) == Planned(d, Devoir);
    assert Completed(c, CM) == Completed(d, CM) && Completed(c, TD) == Completed(d, TD) && Completed(c, TP) == Completed(d, TP);
    assert Completed(c, Exam) == Completed(d, Exam) && Completed(c, Devoir) == Completed(d, Devoir);
  }

  /** The stored row can be saved. */
  lemma RowWellTyped(code: string, c: Course)
    ensures WellTyped(RowOf(code, c))
  {
    var row := RowOf(code, c);
    assert Lookup(row, Key).Str? && Lookup(row, Title).Str?;
    assert IntValue(Lookup(row, Credits)).Some? by {
      assert Lookup(row, Credits) == Int(c.credits);
      assert IntOf(Int(c.credits)) == Parsed(c.credits);
    }
    forall k ensures IntValue(Lookup(row, Hours(k))).Some? && IntValue(Lookup(row, Done(k))).Some? {
      RowColumns(code, c, k);
    }
  }

  /** An instance holding d's values as ints stores d. */
  lemma IntsStored(row: Row, code: string, d: Course)
    requires Lookup(row, Key) == Str(code) && Lookup(row, Title) == Str(d.title) && Lookup(row, Credits) == Int(d.credits)
    requires forall k :: Lookup(row, Hours(k)) == Int(Planned(d, k)) && Lookup(row, Done(k)) == Int(Completed(d, k))
    ensures NumericHours(row)
    ensures CourseOfRow(row) == Some((code, d))
  {
    assert IntOf(Int(d.credits)) == Parsed(d.credits);
    StoresCourse(row, code, d);
  }

  /** Saving an instance nobody changed writes back the stored row. */
  lemma RowRoundTrip(code: string, c: Course)
    ensures CourseOfRow(RowOf(code, c)) == Some((code, c))
  {
    var row := RowOf(code, c);
    forall k ensures Lookup(row, Hours(k)) == Int(Planned(c, k)) && Lookup(row, Done(k)) == Int(Completed(c, k)) {
      RowColumns(code, c, k);
    }
    IntsStored(row, code, c);
  }

  /** Saving the stored row again runs the guard on the stored ints: it
      writes the row back exactly when the course is within its planned hours. */
  lemma SaveStoredRow(code: string, c: Course)
    ensures SaveInstance(RowOf(code, c)) ==
            if Clean(c).None? then Written(code, c) else Stopped(Over(Clean(c).value))
  {
    RowRoundTrip(code, c);
    forall k ensures NumberOf(Lookup(RowOf(code, c), Hours(k))).Some? && NumberOf(Lookup(RowOf(code, c), Done(k))).Some? {
      RowColumns(code, c, k);
    }
    GuardOnInts(RowOf(code, c));
  }

  /** On instances whose hours hold numbers the guard as written and the
      intended one agree. */
  lemma IntendedAgreesOnNumbers(row: Row)
    requires NumericHours(row)
    ensures SaveInstance(row).Written? <==> IntendedSave(row).Written?
    ensures SaveInstance(row).Written? ==> SaveInstance(row) == IntendedSave(row)
    ensures WellTyped(row) ==> SaveInstance(row) == IntendedSave(row)
  {
    if WellTyped(row) {
      GuardOnInts(row);
    }
  }
}
