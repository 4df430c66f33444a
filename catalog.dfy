/// The Course record of emploi_django/schedule/models.py: planned and completed
/// hours per category, the progress ratios derived from them, and the check
/// that Course.save and Course.clean both apply.
module Catalog {
  import opened Outcomes

  /** The five hour categories of a course: lectures (CM), tutorials (TD),
      practicals (TP), exams and homework (devoir). */
  datatype Category = CM | TD | TP | Exam | Devoir

  /** The three teaching modalities a CourseAssignment can carry. */
  type SessionType = k: Category | k.CM? || k.TD? || k.TP? witness CM

  /** Position of a category in the order save and clean test them. */
  function Rank(k: Category): nat {
    match k
    case CM => 0
    case TD => 1
    case TP => 2
    case Exam => 3
    case Devoir => 4
  }

  /** The type column of CourseAssignment as stored ('CM', 'TD', 'TP'). */
  function TypeName(t: SessionType): string {
    match t
    case CM => "CM"
    case TD => "TD"
    case TP => "TP"
  }

  /** The assignment type a submitted string names, if any. */
  function SessionTypeOf(name: string): (r: Option<SessionType>)
    ensures r.Some? ==> TypeName(r.value) == name
    ensures forall t: SessionType :: TypeName(t) == name ==> r == Some(t)
  {
    if name == "CM" then Some(CM)
    else if name == "TD" then Some(TD)
    else if name == "TP" then Some(TP)
    else None
  }

  /** One row of the Course table; the code is the key under which it is stored. */
  datatype Course = Course(
    title: string,
    credits: int,
    cmHours: int, tdHours: int, tpHours: int, examHours: int, devoirHours: int,
    cmCompleted: int, tdCompleted: int, tpCompleted: int, examCompleted: int, devoirCompleted: int)

  /** A course created from title, credits and CM/TD/TP hours: every other column takes its default 0. */
  function NewCourse(title: string, credits: int, cm: int, td: int, tp: int): Course {
    Course(title, credits, cm, td, tp, 0, 0, 0, 0, 0, 0, 0)
  }

  /** The planned hours of a category (the *_hours column). */
  function Planned(c: Course, k: Category): int {
    match k
    case CM => c.cmHours
    case TD => c.tdHours
    case TP => c.tpHours
    case Exam => c.examHours
    case Devoir => c.devoirHours
  }

  /** The completed hours of a category (the *_completed column). */
  function Completed(c: Course, k: Category): int {
    match k
    case CM => c.cmCompleted
    case TD => c.tdCompleted
    case TP => c.tpCompleted
    case Exam => c.examCompleted
    case Devoir => c.devoirCompleted
  }

  /** The course with the completed hours of one category replaced (setattr on *_completed). */
  function WithCompleted(c: Course, k: Category, n: int): (d: Course)
    ensures Completed(d, k) == n
    ensures forall j :: j != k ==> Completed(d, j) == Completed(c, j)
    ensures forall j :: Planned(d, j) == Planned(c, j)
    ensures d.title == c.title && d.credits == c.credits
  {
    match k
    case CM => c.(cmCompleted := n)
    case TD => c.(tdCompleted := n)
    case TP => c.(tpCompleted := n)
    case Exam => c.(examCompleted := n)
    case Devoir => c.(devoirCompleted := n)
  }

  /** The course with the planned hours of one category replaced (setattr on *_hours). */
  function WithPlanned(c: Course, k: Category, n: int): (d: Course)
    ensures Planned(d, k) == n
    ensures forall j :: j != k ==> Planned(d, j) == Planned(c, j)
    ensures forall j :: Completed(d, j) == Completed(c, j)
    ensures d.title == c.title && d.credits == c.credits
  {
    match k
    case CM => c.(cmHours := n)
    case TD => c.(tdHours := n)
    case TP => c.(tpHours := n)
    case Exam => c.(examHours := n)
    case Devoir => c.(devoirHours := n)
  }

  /** get_total_hours: the planned lecture, tutorial and practical hours. */
  function TotalHours(c: Course): int {
    c.cmHours + c.tdHours + c.tpHours
  }

  /** get_total_completed: the completed hours of all five categories. */
  function TotalCompleted(c: Course): int {
    c.cmCompleted + c.tdCompleted + c.tpCompleted + c.examCompleted + c.devoirCompleted
  }

  /** The divisor of total_progress: the planned hours of all five categories. */
  function AllPlanned(c: Course): int {
    TotalHours(c) + c.examHours + c.devoirHours
  }

  function Min(a: real, b: real): real {
    if a <= b then a else b
  }

  /** progress_cm, progress_td, progress_tp, progress_exam and progress_devoir:
      the completed share of the planned hours as a percentage, capped at 100,
      and 0 when nothing is planned. The source does not round. */
  function Progress(c: Course, k: Category): (r: real)
    ensures Planned(c, k) == 0 ==> r == 0.0
    ensures r <= 100.0
    ensures 0 < Planned(c, k) && 0 <= Completed(c, k) ==> 0.0 <= r
    ensures 0 < Planned(c, k) ==> (r == 100.0 <==> Planned(c, k) <= Completed(c, k))
    ensures 0 < Planned(c, k) && Completed(c, k) <= Planned(c, k) ==>
              r * Planned(c, k) as real == Completed(c, k) as real * 100.0
  {
    var p := Planned(c, k);
    if p == 0 then 0.0
    else
      var ratio := Completed(c, k) as real / p as real * 100.0;
      assert 0 < p ==> (100.0 <= ratio <==> p <= Completed(c, k)) by {
        if 0 < p {
          assert ratio * p as real == Completed(c, k) as real * 100.0;
        }
      }
      Min(100.0, ratio)
  }

  /** total_progress: 0 when the CM, TD and TP hours sum to 0 (even when exam or
      homework hours are planned); otherwise all completed hours over all planned
      hours as a capped percentage. None stands for the ZeroDivisionError raised
      when CM+TD+TP is not 0 but the five planned hours sum to 0. */
  function TotalProgress(c: Course): (r: Option<real>)
    ensures TotalHours(c) == 0 ==> r == Some(0.0)
    ensures TotalHours(c) != 0 ==> (r.None? <==> AllPlanned(c) == 0)
    ensures r.Some? ==> r.value <= 100.0
  {
    if TotalHours(c) == 0 then Some(0.0)
    else if AllPlanned(c) == 0 then None
    else Some(Min(100.0, TotalCompleted(c) as real / AllPlanned(c) as real * 100.0))
  }

  /** The five comparisons of Course.save and Course.clean: no completed hours above the planned ones. */
  predicate WithinPlanned(c: Course) {
    && c.cmCompleted <= c.cmHours
    && c.tdCompleted <= c.tdHours
    && c.tpCompleted <= c.tpHours
    && c.examCompleted <= c.examHours
    && c.devoirCompleted <= c.devoirHours
  }

  predicate CompletedNonNegative(c: Course) {
    forall k :: 0 <= Completed(c, k)
  }

  /** Course.clean (and the guard of Course.save): the first category, in the
      order CM, TD, TP, exam, homework, whose completed hours exceed its planned
      hours, or None when the course may be saved. */
  function Clean(c: Course): (r: Option<Category>)
    ensures r.None? <==> forall k :: Completed(c, k) <= Planned(c, k)
    ensures r.Some? ==> Planned(c, r.value) < Completed(c, r.value)
    ensures r.Some? ==> forall k :: Rank(k) < Rank(r.value) ==> Completed(c, k) <= Planned(c, k)
  {
    if c.cmCompleted > c.cmHours then Some(CM)
    else if c.tdCompleted > c.tdHours then Some(TD)
    else if c.tpCompleted > c.tpHours then Some(TP)
    else if c.examCompleted > c.examHours then Some(Exam)
    else if c.devoirCompleted > c.devoirHours then Some(Devoir)
    else None
  }

  /** The five comparisons written out are the per-category bound. */
  lemma WithinPlannedEveryCategory(c: Course)
    ensures WithinPlanned(c) <==> forall k :: Completed(c, k) <= Planned(c, k)
  {
    if WithinPlanned(c) {
      forall k ensures Completed(c, k) <= Planned(c, k) {
        match k
        case CM =>
        case TD =>
        case TP =>
        case Exam =>
        case Devoir =>
      }
    } else {
      var k := Clean(c).value;
      assert Planned(c, k) < Completed(c, k);
    }
  }

  /** One category's progress weighted by its planned hours. */
  function Weighted(c: Course, k: Category): real {
    Progress(c, k) * Planned(c, k) as real
  }

  /** Sum over the five categories of progress weighted by planned hours. */
  function WeightedProgress(c: Course): real {
    Weighted(c, CM) + Weighted(c, TD) + Weighted(c, TP) + Weighted(c, Exam) + Weighted(c, Devoir)
  }

  lemma RatioScale(x: real, t: real)
    requires 0.0 < t
    ensures x / t * 100.0 == (x * 100.0) / t
    ensures x <= t ==> x / t * 100.0 <= 100.0
    ensures x / t * 100.0 == 100.0 <==> x == t
  {
    var q := x / t;
    assert q * t == x;
  }

  lemma UncappedRatio(done: real, total: real, weighted: real)
    requires 0.0 < total && done <= total && weighted == done * 100.0
    ensures Min(100.0, done / total * 100.0) == weighted / total
  {
    RatioScale(done, total);
  }

  /** For one category within its plan and not negative, progress times the
      planned hours is the completed hours times 100. */
  lemma ProgressTimesPlanned(c: Course, k: Category)
    requires Completed(c, k) <= Planned(c, k) && 0 <= Completed(c, k)
    ensures Weighted(c, k) == Completed(c, k) as real * 100.0
  {
    if Planned(c, k) == 0 {
      assert Completed(c, k) == 0;
    }
  }

  /** For a course that save accepts, whose completed hours are not negative and
      whose CM+TD+TP hours are not 0, total_progress is the mean of the five
      per-category progress values weighted by their planned hours: the cap at
      100 never applies and the division never fails. */
  lemma WeightedIsCompleted(c: Course)
    requires WithinPlanned(c) && CompletedNonNegative(c)
    ensures WeightedProgress(c) == TotalCompleted(c) as real * 100.0
  {
    assert 0 <= Completed(c, CM) && 0 <= Completed(c, TD) && 0 <= Completed(c, TP);
    assert 0 <= Completed(c, Exam) && 0 <= Completed(c, Devoir);
    ProgressTimesPlanned(c, CM);
    ProgressTimesPlanned(c, TD);
    ProgressTimesPlanned(c, TP);
    ProgressTimesPlanned(c, Exam);
    ProgressTimesPlanned(c, Devoir);
  }

  lemma TotalProgressIsWeightedMean(c: Course)
    requires WithinPlanned(c) && CompletedNonNegative(c) && TotalHours(c) != 0
    ensures 0 < AllPlanned(c)
    ensures TotalProgress(c) == Some(WeightedProgress(c) / AllPlanned(c) as real)
  {
    WeightedIsCompleted(c);
    var done := TotalCompleted(c) as real;
    var total := AllPlanned(c) as real;
    assert 0 <= Completed(c, CM) && 0 <= Completed(c, TD) && 0 <= Completed(c, TP);
    assert 0 <= Completed(c, Exam) && 0 <= Completed(c, Devoir);
    assert 0.0 < total && done <= total;
    UncappedRatio(done, total, WeightedProgress(c));
  }

  /** Under the same conditions, total_progress reaches 100 exactly when every
      category, exams and homework included, is completed to its plan. */
  lemma TotalProgressFullIffAllCompleted(c: Course)
    requires WithinPlanned(c) && CompletedNonNegative(c) && TotalHours(c) != 0
    ensures TotalProgress(c) == Some(100.0) <==> forall k :: Completed(c, k) == Planned(c, k)
  {
    WithinPlannedEveryCategory(c);
    assert 0 <= Completed(c, CM) && 0 <= Completed(c, TD) && 0 <= Completed(c, TP);
    assert 0 <= Completed(c, Exam) && 0 <= Completed(c, Devoir);
    var done := TotalCompleted(c) as real;
    var total := AllPlanned(c) as real;
    RatioScale(done, total);
    if forall k :: Completed(c, k) == Planned(c, k) {
      assert Completed(c, CM) == Planned(c, CM) && Completed(c, TD) == Planned(c, TD);
      assert Completed(c, TP) == Planned(c, TP) && Completed(c, Exam) == Planned(c, Exam);
      assert Completed(c, Devoir) == Planned(c, Devoir);
    }
    if TotalCompleted(c) == AllPlanned(c) {
      forall k ensures Completed(c, k) == Planned(c, k) {
        assert Completed(c, k) <= Planned(c, k);
        assert Completed(c, CM) <= Planned(c, CM) && Completed(c, TD) <= Planned(c, TD);
        assert Completed(c, TP) <= Planned(c, TP) && Completed(c, Exam) <= Planned(c, Exam);
        assert Completed(c, Devoir) <= Planned(c, Devoir);
      }
    }
  }
}
