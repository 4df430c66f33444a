# Timetable store of the `schedule` Django app

This project models the core of the `schedule` app of `emploi_django`, a
timetable manager for a teaching department. Each course has planned and
completed hours for five categories: CM (lectures), TD (tutorials), TP (lab
work), exams and assignments ("devoir"). Each of the three teaching
modalities CM, TD and TP can have an assignment to a professor and a room.
The weekly timetable places assignments in (day, period, week) cells.

The model has three parts.

- **Course accounting.** `Course` in `models.py`: the totals, the five
  progress ratios, `total_progress`, the delete cascade, the `SET_NULL`
  foreign keys and the two uniqueness rules.
  - The guard of `Course.save` is modelled twice.
  - `Catalog.Clean` is the guard on a course whose columns hold integers.
  - `Attributes.Guard` is the guard on an instance as a view leaves it.
    Its attributes may hold any JSON value, and Python's `>` compares them
    before the columns convert them.
- **The store.** The class `Tables.Store` stands for the database tables.
  - Courses are keyed by code.
  - Assignments are keyed by (course, modality), so their uniqueness holds by
    construction.
  - Slots are kept in table order.
  - Professors and rooms are keyed by autoincrement ids.
  - Its invariant `Valid` states the foreign keys, the uniqueness of the
    (day, period, week) cell and the id counters.
  - "Completed at most planned" is not part of `Valid`. `update_course`
    can store a course above its planned hours (see "## Findings").
- **The views of `views.py` that change or read that store.**
  - `save_plan` is proved against the specification functions of module
    `Plan`.
  - `update_bilan`, `add_course`, the three branches of `get_course_info`,
    `update_course` and `delete_course` are methods on the store.
  - `get_plan`, `get_all_plan` and `get_schedule` are functions over the
    tables.

HTTP answers are values of `Outcomes.Response`:

- `Ok` is a 200 answer.
- `NotFound` is a 404.
- `BadRequest` is a 400, and its `Rejection` says which check failed.
- `ServerError` is a 500, and its `ServerFault` names the exception.

Progress figures are exact `real` numbers. The source does not round them.

Modules, file by file:

- `outcomes.dfy`: `Option` and `Response`.
- `catalog.dfy`: `Catalog`, the course record and its progress accounting.
- `grid.dfy`: `Grid`, slots, cells and assignment keys.
- `plan.dfy`: `Plan`, the specification of `save_plan`.
- `values.dfy`: `Values`, JSON values, truthiness, Python's `int()` and
  Python's `>` on JSON values.
- `attributes.dfy`: `Attributes`, a course instance as named attributes,
  the guard of `Course.save` on it, and the conversions of the write.
- `store.dfy`: `Tables`, the store.
- One module per view:
  - `planviews.dfy`: `PlanViews`;
  - `bilanview.dfy`: `BilanView`;
  - `addcourse.dfy`: `AddCourseView`;
  - `courseinfo.dfy`: `CourseInfoView`;
  - `updatecourse.dfy`: `UpdateCourseView`.

## Model

| member | source | states |
|---|---|---|
| Catalog.SessionTypeOf | emploi_django/schedule/models.py:124 | a type string names a modality exactly when it is one of 'CM', 'TD', 'TP', and then names that one |
| Catalog.WithCompleted | emploi_django/schedule/views.py:380 | setattr on a `*_completed` column changes that column only |
| Catalog.WithPlanned | emploi_django/schedule/models.py:10-15 | setting a `*_hours` column changes that column only |
| Catalog.Progress | emploi_django/schedule/models.py:36-59 | progress_X is 0 when nothing is planned and never exceeds 100; when the planned hours are positive, it is non-negative when the completed hours are, it is 100 exactly when completed reaches planned, and below that it is completed/planned × 100 |
| Catalog.TotalProgress | emploi_django/schedule/models.py:61-65 | total_progress is 0 whenever cm+td+tp is 0, even when exam or devoir hours are planned; otherwise it raises ZeroDivisionError exactly when all five planned hours sum to 0; it never exceeds 100 |
| Catalog.TotalProgressIsWeightedMean | emploi_django/schedule/models.py:30-34 | for a course within its planned hours, with non-negative completed hours and cm+td+tp ≠ 0, total_progress is get_total_completed over the sum of all five planned hours, which is the progress of each category weighted by its planned hours |
| Catalog.WeightedIsCompleted | emploi_django/schedule/models.py:33-34 | the five progress ratios weighted by planned hours add up to 100 × get_total_completed |
| Catalog.TotalProgressFullIffAllCompleted | emploi_django/schedule/models.py:61-65 | for a course within its planned hours, with non-negative completed hours and cm+td+tp ≠ 0, total_progress is 100 exactly when every category is completed |
| Catalog.Clean | emploi_django/schedule/models.py:67-98 | on integer columns, save and clean refuse a course exactly when some completed column exceeds its planned column; the reported column is the first such in the order CM, TD, TP, exam, devoir |
| Catalog.WithinPlannedEveryCategory | emploi_django/schedule/models.py:69-78 | the five comparisons of the guard are the per-category rule "completed ≤ planned" |
| Grid.SelectMembers | emploi_django/schedule/views.py:191 | filtering slots by week keeps exactly the slots of those weeks (or exactly the others) |
| Grid.DropTwice | emploi_django/schedule/views.py:191 | deleting the slots of week set w, then those of v, deletes those of w ∪ v |
| Grid.KeepAfterDrop | emploi_django/schedule/views.py:191 | after deleting weeks w, the slots of weeks v are those of v \ w |
| Grid.UniqueCellsSnoc | emploi_django/schedule/models.py:159 | appending a slot keeps (day, period, week) unique exactly when its cell is free |
| Grid.SelectKeepsUnique | emploi_django/schedule/models.py:159 | deleting slots keeps the cells unique |
| Grid.WithoutCourseMembers | emploi_django/schedule/models.py:156 | the cascade from a course's assignments removes exactly that course's slots |
| Grid.WithoutCourseKeepsUnique | emploi_django/schedule/models.py:156-159 | the cascade keeps the cells unique |
| Values.ParseInt | emploi_django/schedule/views.py:363 | int() of a text accepts a string of digits, optionally signed with '+' or '-', with its decimal value, negated for '-'; it refuses the empty string, a lone sign and any other character |
| Values.DecimalValue | emploi_django/schedule/views.py:363 | the decimal digits of n read back as n |
| Values.ParseShowInt | emploi_django/schedule/views.py:363 | int(str(i)) == i for every integer |
| Values.IntOf | emploi_django/schedule/views.py:362-367 | int() of a JSON value: an int is kept, a bool is 1 or 0, a string gives its parsed value or raises ValueError, and null or a list/object raises TypeError |
| Values.StrLessTrichotomy | emploi_django/schedule/models.py:69 | Python's order on strings is total, asymmetric and irreflexive: of two different strings exactly one is less |
| Values.StrLessTransitive | emploi_django/schedule/models.py:69 | Python's order on strings is transitive |
| Values.Greater | emploi_django/schedule/models.py:69-78 | Python's `a > b` on two JSON values is defined exactly when both are numbers (ints or bools, compared by value) or both are strings (compared as text); otherwise it raises TypeError |
| Values.DigitStringsCompareAsText | emploi_django/schedule/models.py:69 | "10" > "9" is False, although int() reads them as 10 and 9 |
| Attributes.ColumnNamesResolve | emploi_django/schedule/views.py:245 | hasattr and setattr reach each column under its own name, and under no other name except `pk` for the primary key |
| Attributes.SetAttrsValues | emploi_django/schedule/views.py:244-246 | after the setattr loop an attribute holds the value of the last update naming it, or its old value when none does |
| Attributes.TextOf | emploi_django/schedule/models.py:6-7 | a CharField stores a string as it is, an int as its decimal text and a bool as "True"/"False"; it cannot store null |
| Attributes.CourseOfRow | emploi_django/schedule/models.py:6-22 | the instance can be written exactly when every attribute converts to its column's type; the key and title stored are the text conversions, and the credits and the ten hours columns are int() of the values held |
| Attributes.Guard | emploi_django/schedule/models.py:67-79 | the guard of save on the values held: it lets the write through exactly when all five comparisons `completed > planned` are False; otherwise it stops at the first comparison, in the order CM, TD, TP, exam, devoir, that is True (ValueError) or raises TypeError |
| Attributes.SaveInstance | emploi_django/schedule/models.py:67-79 | save runs the guard first and then writes; it writes exactly when the guard passes and every value converts, and it writes the converted course |
| Attributes.GuardOnInts | emploi_django/schedule/models.py:67-79 | when every hours attribute holds a number, the guard is Catalog.Clean of the course that would be written |
| Attributes.SaveStoredRow | emploi_django/schedule/models.py:67-79 | saving a stored course unchanged writes it back exactly when it is within its planned hours, and otherwise stops at Clean's category |
| Attributes.RowRoundTrip | emploi_django/schedule/views.py:241-248 | fetching a course and saving it unchanged writes back the same row |
| Attributes.IntendedSave | emploi_django/schedule/models.py:67-79 | the corrected save: every course it writes is within its planned hours; it refuses only a category whose converted completed hours exceed the planned ones; it fails to store exactly when a value does not convert |
| Attributes.IntendedAgreesOnNumbers | emploi_django/schedule/models.py:67-79 | when every hours attribute holds a number, the save as written and the corrected save write the same course in the same cases |
| Plan.FaultOf | emploi_django/schedule/views.py:195-212 | an item fails with a missing course, a missing (course, type) assignment or a taken cell exactly in those cases, in that order, and is placed otherwise |
| Plan.GroupByWeek | emploi_django/schedule/views.py:176-185 | every item lands in the group of its week, in submission order; weeks come in first-seen order; the affected set is exactly the plan's course codes |
| Plan.AddToGroup | emploi_django/schedule/views.py:179-185 | one turn of the grouping loop: the item is appended to its week's group, the week is keyed when first seen, and the course code joins the affected set |
| Plan.ItemsOfWeekMembers | emploi_django/schedule/views.py:179-183 | a week's group holds exactly the plan items of that week |
| Plan.WeeksMembers | emploi_django/schedule/views.py:179-183 | every item's week is listed once, and every listed week has items |
| Plan.InsertItemsAppliedIff | emploi_django/schedule/views.py:194-212 | a week's items all go in exactly when each is placeable in the table as it stands before it |
| Plan.InsertItemsProgress | emploi_django/schedule/views.py:194-212 | the inner loop inserts exactly the items before the first one that meets a fault, and reports that item with its fault |
| Plan.WeekPlaceableIff | emploi_django/schedule/views.py:194-212 | after the week is cleared, its items all go in exactly when all resolve and no two share a cell |
| Plan.ReplaceWeekAppliedIff | emploi_django/schedule/views.py:188-212 | replacing a week succeeds exactly when its items resolve and share no cell, whatever the table held |
| Plan.NoSharedCellByWeek | emploi_django/schedule/views.py:188-209 | a plan shares no cell exactly when no week group does |
| Plan.PlanAppliedIff | emploi_django/schedule/views.py:166-224 | save_plan succeeds exactly when every item resolves and no two items share a (day, period, week) cell |
| Plan.PlanSuccessTable | emploi_django/schedule/views.py:188-209 | on success the table is the old slots of the other weeks, followed by the plan's items grouped by week |
| Plan.PlanSuccessWeek | emploi_django/schedule/views.py:188-209 | on success each named week holds exactly its items, in order, and every other week is as before |
| Plan.PlanReadBack | emploi_django/schedule/views.py:154-163 | on success get_plan of a named week answers exactly the submitted items of that week |
| Plan.PlanIdempotent | emploi_django/schedule/views.py:188-209 | applying a successful plan twice leaves what one application left |
| Plan.PlanKeepsOtherWeeks | emploi_django/schedule/views.py:188-212 | success or failure, weeks the plan does not name keep their slots |
| Plan.PlanFailureState | emploi_django/schedule/views.py:190-212 | on failure at item j of week k, the weeks before k are replaced, week k is cleared with its first j items inserted, later weeks are untouched; the reported item and fault are those of item j; a taken cell is one that an earlier item of the same week claimed |
| Plan.PlanKeepsGrid | emploi_django/schedule/models.py:156-159 | whatever happens, the table keeps unique cells and every slot names an existing assignment |
| Tables.ClearProfessor | emploi_django/schedule/models.py:122 | deleting a professor sets exactly the references to it to null, keeps each such assignment's room, and keeps every other assignment as it was |
| Tables.ClearRoom | emploi_django/schedule/models.py:123 | deleting a room sets exactly the references to it to null, keeps each such assignment's professor, and keeps every other assignment as it was |
| Tables.AssignmentsWithout | emploi_django/schedule/models.py:100-104 | deleting a course's assignments keeps exactly the other courses' ones, unchanged |
| Tables.Store.constructor | emploi_django/schedule/models.py:5-159 | the empty tables satisfy the invariant |
| Tables.Store.Save | emploi_django/schedule/models.py:67-79 | save of an integer course writes the row exactly when the guard accepts it; otherwise nothing changes |
| Tables.Store.Write | emploi_django/schedule/models.py:79 | the UPDATE or INSERT after the guard: the course is stored under its code, overwriting any row there, and no other table changes |
| Tables.Store.Create | emploi_django/schedule/models.py:67-79 | objects.create: the guard runs first, then a taken primary key is an integrity error; either way nothing changes |
| Tables.Store.Delete | emploi_django/schedule/models.py:100-104 | delete removes the course, its assignments and, by cascade, their slots; nothing else changes |
| Tables.Store.DeleteProfessor | emploi_django/schedule/models.py:122 | deleting a professor removes it and nulls the professor of exactly its assignments, keeping their rows and rooms; nothing else changes |
| Tables.Store.DeleteRoom | emploi_django/schedule/models.py:123 | deleting a room removes it and nulls the room of exactly its assignments, keeping their rows and professors; nothing else changes |
| Tables.Store.GetOrCreateProfessor | emploi_django/schedule/views.py:441 | get_or_create by name: fails exactly when two professors share the name; returns the match unchanged, or a fresh id that is never reused; keeps names distinct when they were |
| Tables.Store.GetOrCreateRoom | emploi_django/schedule/views.py:454 | the same for a room by number |
| Tables.Store.PutAssignment | emploi_django/schedule/models.py:120-127 | an upsert of the (course, type) assignment replaces that one entry |
| Tables.Store.DeleteWeek | emploi_django/schedule/views.py:191 | the week's slots are removed, the others kept in order |
| Tables.Store.InsertSlot | emploi_django/schedule/models.py:159 | a slot is appended exactly when its cell is free |
| PlanViews.ReplaceWeekSlots | emploi_django/schedule/views.py:188-212 | one pass of the week loop leaves exactly the table and outcome that the specification of that week gives |
| PlanViews.SavePlan | emploi_django/schedule/views.py:166-224 | save_plan leaves exactly the table and outcome of the specification, computes affected_courses as the set of the plan's course codes (the refresh loop walks it; the answer does not carry it), and changes no other table |
| PlanViews.GetPlan | emploi_django/schedule/views.py:154-163 | get_plan answers one row per slot of the week, and its rows are exactly the rows of that week's slots |
| PlanViews.AllPlanByWeek | emploi_django/schedule/views.py:141-163 | the rows get_all_plan answers for week w, without their week, are exactly what get_plan answers for w |
| PlanViews.GetSchedule | emploi_django/schedule/views.py:128-139 | get_schedule fails exactly when a slot of the week has lost its professor; otherwise it answers each slot with its professor's name and its room's number, if any |
| BilanView.CompletedColumn | emploi_django/schedule/views.py:358-359 | only cm_completed, td_completed and tp_completed are accepted, each for its modality |
| BilanView.BilanCheck | emploi_django/schedule/views.py:349-377 | the checks pass exactly when the three inputs are truthy, the field is accepted, int(value) is a non-negative number, the course exists and the value is at most the planned hours; a falsy input is "missing"; int() of a list or object is a server error |
| BilanView.ZeroIsMissing | emploi_django/schedule/views.py:354-355 | a numeric value 0 is refused as missing, while the text "0" records 0 |
| BilanView.BilanWriteSaves | emploi_django/schedule/views.py:372-381 | on a course within its planned hours, a value that passed the checks never trips the guard of Course.save |
| BilanView.BilanRefusedElsewhere | emploi_django/schedule/views.py:372-381 | when the guard does refuse the write, it stops at another category, one already above its planned hours in the stored course |
| BilanView.BilanReply | emploi_django/schedule/views.py:384-393 | the answer carries progress_cm, progress_td, progress_tp and total_progress of the saved course, each at most 100, and is a server error exactly when total_progress divides by zero |
| BilanView.BilanReportsWrite | emploi_django/schedule/views.py:380-390 | the progress of the written modality is the written value's share of its planned hours, and 100 exactly when it reaches them |
| BilanView.UpdateBilan | emploi_django/schedule/views.py:342-401 | a refusal changes nothing; otherwise the course with that completed column replaced is saved and the answer is computed from it; when the guard refuses that course the answer is a server error and nothing changes |
| AddCourseView.CourseData | emploi_django/schedule/views.py:411-430 | int() failures come before the missing check; the form is accepted exactly when code and title are non-empty and the four numbers are present, parse and are non-zero; the course has those values and zero exam, devoir and completed hours |
| AddCourseView.NewCourseRefusedIffNegative | emploi_django/schedule/views.py:433 | a new course is refused by the guard exactly when some planned hours are negative |
| AddCourseView.AssignProfessor | emploi_django/schedule/views.py:437-446 | a named professor is found or created by name and given a fresh (course, type) assignment with no room; the only professor that may be added carries the submitted name, which no professor had; no other assignment changes |
| AddCourseView.AssignProfessors | emploi_django/schedule/views.py:437-446 | after the loop over CM, TD, TP each modality has an assignment exactly when a professor name was given, with that professor; each added professor carries a submitted name that no professor had; distinct names stay distinct and then nothing fails |
| AddCourseView.NoRoomSubmitted | emploi_django/schedule/views.py:449-464 | a TD assignment never gets a room, because the form has no TD room |
| AddCourseView.AssignRoom | emploi_django/schedule/views.py:452-464 | a CM or TP room is found or created by number and set only on an assignment that already exists; the only room that may be added carries the submitted number, which no room had, and an empty type |
| AddCourseView.AssignRooms | emploi_django/schedule/views.py:449-464 | the CM room, then the TP room: each given room is set on that modality's assignment; each added room carries a submitted number that no room had; distinct numbers stay distinct and then nothing fails |
| AddCourseView.StaffCourse | emploi_django/schedule/views.py:437-464 | every modality ends staffed as submitted, unless a get_or_create meets several rows; only professors and rooms with submitted, previously unknown names and numbers are added; distinct names and numbers stay distinct and then nothing fails |
| AddCourseView.AddCourse | emploi_django/schedule/views.py:404-503 | refusals (bad form, guard, taken code) change nothing; otherwise the course is stored, other courses' assignments are untouched, only professors and rooms with submitted names and numbers are added, distinctness is kept, and the answer lists the submitted names and rooms |
| CourseInfoView.GetCourseInfo | emploi_django/schedule/views.py:47-68 | GET answers 404 exactly for an unknown code and 500 exactly when an assignment of the course has lost its professor; otherwise the course's columns, and for each modality the professor and room ids of its assignment, when there is one |
| CourseInfoView.Upserted | emploi_django/schedule/views.py:72-81 | update_or_create stores title, credits and the three planned hours as the columns convert them, exactly when all five convert, and keeps the completed, exam and devoir columns of an existing course; a new course has the model's defaults elsewhere |
| CourseInfoView.PutStores | emploi_django/schedule/views.py:72-81 | the PUT instance can be written exactly when Upserted is defined, and then it writes Upserted under the URL's code |
| CourseInfoView.PutSaves | emploi_django/schedule/views.py:72-81 | save of the PUT instance writes only Upserted; with numbers for the three hours the guard is Catalog.Clean of it; a CM hours value that is not a number meets the stored int and raises TypeError |
| CourseInfoView.SaveFault | emploi_django/schedule/views.py:106-107 | a save that does not write is a server error naming why: the guard's ValueError, its TypeError, or a value the column cannot store |
| CourseInfoView.PutStaffing | emploi_django/schedule/views.py:84-95 | each modality with a professor gets that professor and the submitted room or none; every other assignment is kept |
| CourseInfoView.StaffAllAt | emploi_django/schedule/views.py:84-95 | after the loop over some modalities, an assignment is the submitted staffing exactly when its modality was visited and has a professor, and is as before otherwise |
| CourseInfoView.PutModality | emploi_django/schedule/views.py:85-95 | one modality: a missing professor or room id stops with nothing written, otherwise its assignment is upserted |
| CourseInfoView.PutModalities | emploi_django/schedule/views.py:84-95 | the loop over CM, TD, TP goes through exactly when every submitted professor and room id exists, and then writes exactly the PUT staffing; otherwise it stops at the first modality whose professor or room id is missing, with exactly the modalities before it written |
| CourseInfoView.PutCourse | emploi_django/schedule/views.py:70-107 | PUT: a save that does not write (guard ValueError, guard TypeError, unstorable value) is a 500 with nothing changed; otherwise the course is written under the URL's code; then the answer is 200 with exactly the PUT staffing when every referenced id exists, and otherwise 404 with exactly the modalities before the first missing id written |
| CourseInfoView.PutThenGet | emploi_django/schedule/views.py:47-97 | a GET after a successful PUT answers the submitted columns as the database converted them, and the submitted professors and rooms |
| CourseInfoView.DeletedProfessorBreaksInfo | emploi_django/schedule/models.py:122 | once a course's professor is deleted, GET on that course is a server error |
| CourseInfoView.DeleteCourseInfo | emploi_django/schedule/views.py:99-102 | DELETE removes the course with its assignments and slots, or answers 404 with nothing changed; the other tables and the id counters are kept |
| CourseInfoView.DeleteCourse | emploi_django/schedule/views.py:266-307 | delete_course: an empty code is refused as missing, an unknown one is not found, and otherwise the course goes with its assignments and slots; the other tables and the id counters are kept |
| CourseInfoView.DeletedCourseIsGone | emploi_django/schedule/models.py:100-104 | after a delete, GET of the course is 404 and no week's plan names it |
| UpdateCourseView.ApplyUpdates | emploi_django/schedule/views.py:244-246 | the setattr loop builds exactly the instance of the specification |
| UpdateCourseView.UpdateCourse | emploi_django/schedule/views.py:235-263 | update_course: a missing code or course is 404; a guard ValueError, a guard TypeError or an unstorable value is 400 with nothing written; otherwise the converted instance is written under its (possibly new) code and no other table changes |
| UpdateCourseView.UpdatedIffFits | emploi_django/schedule/views.py:244-248 | the instance converts exactly when the last value submitted for each attribute converts to that column's type; it is written exactly when, in addition, the guard's five comparisons on the instance are all False |
| UpdateCourseView.UpdatedComparison | emploi_django/schedule/views.py:244-248 | the guard's comparison for a category is made between the last values submitted for its two columns, or the stored int of a column nobody named |
| UpdateCourseView.UpdatedWithoutKnownNames | emploi_django/schedule/views.py:244-246 | names the instance lacks are ignored: the stored course is saved as it was, and the guard judges the stored ints |
| UpdateCourseView.UpdatedPlannedHours | emploi_django/schedule/views.py:244-248 | submitting one int for a category's planned hours writes the course with that column replaced, unless the guard then refuses it |
| UpdateCourseView.UpdatedColumns | emploi_django/schedule/views.py:244-248 | each hours column holds int() of the last value submitted for it, or its stored value; the key moves only when `code` or `pk` is submitted, to the text of its last value |
| UpdateCourseView.StringHoursPassGuard | emploi_django/schedule/models.py:69-70 | as written: cm_hours "9" and cm_completed "10" pass the guard, and a course with 10 completed over 9 planned CM hours is stored, which no later save of that row accepts |
| UpdateCourseView.IntendedRefusesStringHours | emploi_django/schedule/models.py:69-70 | the corrected save refuses that instance at CM |

## Findings

| source | as written | input that shows it | evidently intended | confidence | as-written member | corrected member |
|---|---|---|---|---|---|---|
| emploi_django/schedule/models.py:69-78 | the guard compares the values the instance holds with `>`; after update_course's setattr loop these can be strings, which Python compares as text, and the IntegerField converts them with int() only when it writes | update_course with updates {"cm_hours": "9", "cm_completed": "10"} on a course within its planned hours: "10" > "9" is False, so 10 completed CM hours over 9 planned are stored | compare the hours as the integers the columns store, so a stored course never has more completed than planned hours | not executed | UpdateCourseView.StringHoursPassGuard | Attributes.IntendedSave |

- `Attributes.IntendedAgreesOnNumbers` shows that the two saves agree whenever the hours hold numbers. `UpdateCourseView.IntendedRefusesStringHours` shows that the corrected save refuses the instance above.
- The views keep the save as written, since that is what the program does. So `Tables.Store.Valid` does not include "completed at most planned". `BilanView.BilanRefusedElsewhere` shows the consequence for `update_bilan`: on a course stored this way, any later write of another category is refused by the guard and answered 500.

## Left out

- Rendering views are not modelled: `schedule_view`, `plan_view`, `CourseListView`, `bilan_view` and the templates are presentation only.
- `get_courses`, `get_professors`, `get_rooms` and `debug_course_values` are not modelled. They list tables in database order.
- JSON decoding, CSRF, request methods other than the handled ones, and logging are left out. Views receive already-decoded values.
- A JSON key missing where the source indexes with `[...]` (a KeyError, answered 500) is not modelled. Inputs read with `.get` are modelled, with a missing key passed as `""` or `Null`.
- JSON floats are not among the modelled values. `int()` truncates them, the guard compares them with ints, and the columns store their truncation.
- Values.ParseInt: does not model the whitespace, underscores and non-ASCII digits that Python's `int()` also accepts.
- Values.Greater: a list or object compared with anything raises TypeError here. Python compares two lists element by element, and that case is not modelled.
- Attributes.TextOf: a list or object given for `code` or `title` is treated as unstorable. A CharField would store its `str()`.
- UpdateCourseView.UpdateCourse: does not model setattr on non-column attributes. Examples are methods, the `objects` manager and `courseassignment_set`. Only the columns and `pk` are attributes here.
- UpdateCourseView.UpdateCourse: the column lengths (`max_length`) and the 32-bit range of `IntegerField` are not enforced, because Course.save does not check them before the database does.
- BilanView.UpdateBilan: `course_code` is taken as a string. A JSON number, which passes the truthiness test and which the lookup converts to text, is not modelled.
- UpdateCourseView.UpdateCourse: `code` is taken as a string or absent. A number given as the code, which the lookup would convert, is not modelled.
- PlanViews.SavePlan: the progress refresh after the week loop calls `update_completed_hours`, which `Course` does not define. The resulting AttributeError is swallowed, so the refresh is modelled as changing nothing and is not written out.
- PlanViews.SavePlan: day and period strings are not checked against the `DAYS`/`PERIODS` choices. `objects.create` does not enforce choices either.
- PlanViews.SavePlan: weeks are integers here. The source groups items by the JSON value of `week`, so 3 and "3" form two groups that hit the same table week, and the second group's delete erases what the first inserted. That case is not modelled.
- CourseInfoView.DeleteCourse: `code` is taken as a string. A JSON number or `true`, which passes the `not code` test and which the lookup converts to text, is not modelled; neither is a JSON `0` or `false`, which is refused as missing.
- CourseInfoView.DeleteCourse: every outcome of `delete_course` is an HTTP 200 with a `success` flag. The model separates them as `Ok`, `BadRequest(MissingField)` and `NotFound`.
- CourseInfoView.PutCourse: a professor or room id of the wrong JSON type is not modelled. Ids are integers here.
- AddCourseView.AddCourse: when a `get_or_create` meets several rows, the contract states only that the answer is that server error and what stayed written. It does not state which modalities were staffed before the failure.
- Transactions and concurrent requests are left out. The source runs in autocommit without locking.
- The department and semester routes of `urls.py` are left out; they name views that do not exist.
- `file_schedule.py`, the data-seeding command, the migrations and the template filters are not part of this model.
- `Soutenance` and `EncadrementMilitaire` are plain records with no behaviour.
