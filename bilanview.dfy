/// update_bilan in emploi_django/schedule/views.py: record the completed hours
/// of one teaching modality of a course, then answer with the course's progress.
module BilanView {
  import opened Outcomes
  import opened Catalog
  import opened Values
  import opened Attributes
  import opened Tables

  /** The progress figures update_bilan answers with. */
  datatype BilanReport = BilanReport(cm: real, td: real, tp: real, total: real)

  /** The modality of the one of cm_completed, td_completed and tp_completed
      that `field` names; any other name, exam_completed included, is refused. */
  function CompletedColumn(field: string): (r: Option<SessionType>)
    ensures r.Some? ==> DoneName(r.value) == field
    ensures forall t: SessionType :: DoneName(t) == field ==> r == Some(t)
  {
    if field == "cm_completed" then Some(CM)
    else if field == "td_completed" then Some(TD)
    else if field == "tp_completed" then Some(TP)
    else None
  }

  /** The checks of update_bilan before it writes, in the order it makes them:
      all three values truthy, a known field, int(value) that is not negative,
      an existing course, and no more than the planned hours. An absent key
      reaches the view as None and is passed here as "" or Null. On success,
      the modality and the number to write. */
  function BilanCheck(courses: map<string, Course>, code: string, field: string, value: Json): (r: Response<(SessionType, int)>)
    ensures r.Ok? <==>
              && code != "" && !Falsy(value) && CompletedColumn(field).Some? && IntOf(value).Parsed?
              && code in courses && 0 <= IntOf(value).n <= Planned(courses[code], CompletedColumn(field).value)
    ensures r.Ok? ==> DoneName(r.value.0) == field && IntOf(value) == Parsed(r.value.1)
    ensures code == "" || field == "" || Falsy(value) ==> r == BadRequest(MissingField)
    ensures r == NotFound ==> code !in courses
    ensures r.ServerError? ==> r == ServerError(NotConvertible)
    ensures r == ServerError(NotConvertible) <==> code != "" && CompletedColumn(field).Some? && value.Composite? && value.size > 0
  {
    if code == "" || field == "" || Falsy(value) then BadRequest(MissingField)
    else if CompletedColumn(field).None? then BadRequest(InvalidField)
    else match IntOf(value)
      case ValueErr => BadRequest(NotAnInteger)
      case TypeErr => ServerError(NotConvertible)
      case Parsed(n) =>
        if n < 0 then BadRequest(NegativeValue)
        else if code !in courses then NotFound
        else
          var t := CompletedColumn(field).value;
          if n > Planned(courses[code], t) then BadRequest(AbovePlanned)
          else Ok((t, n))
  }

  /** A number 0 is refused as missing although 0 completed hours is a valid
      count; the string "0" is truthy and records 0. */
  lemma ZeroIsMissing(courses: map<string, Course>, code: string, field: string)
    ensures BilanCheck(courses, code, field, Int(0)) == BadRequest(MissingField)
    ensures code in courses && code != "" && CompletedColumn(field).Some? &&
            0 <= Planned(courses[code], CompletedColumn(field).value) ==>
              BilanCheck(courses, code, field, Str("0")) == Ok((CompletedColumn(field).value, 0))
  {
    assert IsDigit("0"[0]);
    assert DigitsValue("0") == 0 by {
      assert "0"[..0] == [];
    }
  }

  /** The write update_bilan makes never trips the guard of Course.save, and
      changes nothing but the one completed-hours column. */
  lemma BilanWriteSaves(c: Course, t: SessionType, n: int)
    requires WithinPlanned(c) && 0 <= n <= Planned(c, t)
    ensures Clean(WithCompleted(c, t, n)).None?
    ensures WithinPlanned(WithCompleted(c, t, n))
  {
    WithinPlannedEveryCategory(c);
    WithinPlannedEveryCategory(WithCompleted(c, t, n));
  }

  /** When the guard refuses the write of update_bilan, the category it stops
      at is another one, already above its planned hours in the stored row. */
  lemma BilanRefusedElsewhere(c: Course, t: SessionType, n: int)
    requires n <= Planned(c, t)
    ensures Clean(WithCompleted(c, t, n)).Some? ==>
              Clean(WithCompleted(c, t, n)).value != t &&
              Completed(c, Clean(WithCompleted(c, t, n)).value) > Planned(c, Clean(WithCompleted(c, t, n)).value)
    ensures Clean(WithCompleted(c, t, n)).Some? ==> !WithinPlanned(c)
  {
    var d := WithCompleted(c, t, n);
    if Clean(d).Some? {
      var k := Clean(d).value;
      assert k != t;
      WithinPlannedEveryCategory(c);
    }
  }

  /** The answer after the write: the three progress figures and total_progress,
      whose ZeroDivisionError is a server error. */
  function BilanReply(c: Course): (r: Response<BilanReport>)
    ensures r.Ok? <==> TotalProgress(c).Some?
    ensures r.Ok? ==> r.value.cm <= 100.0 && r.value.td <= 100.0 && r.value.tp <= 100.0 && r.value.total <= 100.0
    ensures r.Ok? ==> r.value == BilanReport(Progress(c, CM), Progress(c, TD), Progress(c, TP), TotalProgress(c).value)
    ensures r.ServerError? ==> r == ServerError(ZeroDivision)
  {
    match TotalProgress(c)
    case None => ServerError(ZeroDivision)
    case Some(total) => Ok(BilanReport(Progress(c, CM), Progress(c, TD), Progress(c, TP), total))
  }

  /** The progress of the modality just written is the share of its planned hours. */
  lemma BilanReportsWrite(c: Course, t: SessionType, n: int)
    requires 0 <= n <= Planned(c, t) && 0 < Planned(c, t)
    ensures Progress(WithCompleted(c, t, n), t) * Planned(c, t) as real == n as real * 100.0
    ensures Progress(WithCompleted(c, t, n), t) == 100.0 <==> n == Planned(c, t)
  {
  }

  /** update_bilan: once the checks pass the course is saved with the new
      completed hours (even when the progress report then fails), unless the
      guard of Course.save raises for another category, which is a server
      error; on any refusal nothing changes. */
  method UpdateBilan(db: Store, code: string, field: string, value: Json) returns (r: Response<BilanReport>)
    requires db.Valid()
    modifies db
    ensures db.Valid()
    ensures var check := BilanCheck(old(db.courses), code, field, value);
            && (!check.Ok? ==> r == check.Relay() && db.courses == old(db.courses))
            && (check.Ok? ==>
                  var updated := WithCompleted(old(db.courses)[code], check.value.0, check.value.1);
                  && (Clean(updated).None? ==> db.courses == old(db.courses)[code := updated] && r == BilanReply(updated))
                  && (Clean(updated).Some? ==> db.courses == old(db.courses) && r == ServerError(SaveRefused)))
    ensures db.assignments == old(db.assignments) && db.slots == old(db.slots)
    ensures db.professors == old(db.professors) && db.rooms == old(db.rooms)
    ensures db.nextProfessor == old(db.nextProfessor) && db.nextRoom == old(db.nextRoom)
  {
    if code == "" || field == "" || Falsy(value) {
      return BadRequest(MissingField);
    }
    var column := CompletedColumn(field);
    if column.None? {
      return BadRequest(InvalidField);
    }
    var n: int;
    match IntOf(value) {
      case ValueErr => return BadRequest(NotAnInteger);
      case TypeErr => return ServerError(NotConvertible);
      case Parsed(m) => n := m;
    }
    if n < 0 {
      return BadRequest(NegativeValue);
    }
    if code !in db.courses {
      return NotFound;
    }
    var course := db.courses[code];
    if n > Planned(course, column.value) {
      return BadRequest(AbovePlanned);
    }
    var updated := WithCompleted(course, column.value, n);
    var saved := db.Save(code, updated);
    if !saved.Saved? {
      return ServerError(SaveRefused);
    }
    r := BilanReply(updated);
  }
}
