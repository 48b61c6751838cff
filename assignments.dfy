/** The assignment controller's read-only handlers and the records its mutating
    handlers build (the mutations themselves are methods of Lms.Store). An
    assignment's authorizing teacher is the teacher of its course. */
module Assignments {
  import opened Model
  import opened Courses

  const AssignmentNotFound := "Assignment not found"
  const OnlyViewOwnAssignments := "Can only view assignments from your courses"
  const FieldsRequired := "Title, description, courseId, and dueDate are required"
  const OnlyCreateOwn := "Can only create assignments for your courses"
  const OnlyUpdateOwnAssignments := "Can only update assignments from your courses"
  const DefaultMaxScore := 100

  /** `getAssignments`: the assignments of the courses in the caller's course set. */
  function GetAssignments(courses: map<Id, Course>, assignments: map<Id, Assignment>,
                          p: Principal): (r: Result<map<Id, Assignment>>)
    ensures r.Ok?
    ensures forall a :: a in r.value <==>
      a in assignments && assignments[a].course in courses &&
      MayView(p, courses[assignments[a].course])
    ensures forall a :: a in r.value ==> r.value[a] == assignments[a]
  {
    var ids := CoursesOf(courses, p);
    Ok(map a | a in assignments && assignments[a].course in ids :: assignments[a])
  }

  /** `getAssignment`: lookup (404), then the populated course must exist, then the
      role's ownership check. A missing course is a null dereference: the student
      branch reads `_id`, the teacher branch `teacher`. */
  function GetAssignment(courses: map<Id, Course>, assignments: map<Id, Assignment>,
                         p: Principal, id: Id): (r: Result<Assignment>)
    ensures id !in assignments ==> r == Err(NotFound(AssignmentNotFound))
    ensures id in assignments && assignments[id].course !in courses ==>
      r == Err(ServerError(NullRead(if p.role == Student then "_id" else "teacher")))
    ensures id in assignments && assignments[id].course in courses ==>
      (r.Ok? <==> MayView(p, courses[assignments[id].course]))
    ensures id in assignments && assignments[id].course in courses &&
            !MayView(p, courses[assignments[id].course]) ==>
      r == Err(Forbidden(if p.role == Student then NotEnrolled else OnlyViewOwnAssignments))
    ensures r.Ok? ==> r.value == assignments[id]
  {
    if id !in assignments then Err(NotFound(AssignmentNotFound))
    else
      var cid := assignments[id].course;
      if p.role == Student then
        if cid !in courses then Err(ServerError(NullRead("_id")))
        else if p.id !in courses[cid].enrolledStudents then Err(Forbidden(NotEnrolled))
        else Ok(assignments[id])
      else
        if cid !in courses then Err(ServerError(NullRead("teacher")))
        else if courses[cid].teacher != p.id then Err(Forbidden(OnlyViewOwnAssignments))
        else Ok(assignments[id])
  }

  /** An assignment is listed for a caller exactly when the caller may open it. */
  lemma ListedIffViewable(courses: map<Id, Course>, assignments: map<Id, Assignment>,
                          p: Principal, id: Id)
    ensures id in GetAssignments(courses, assignments, p).value <==>
            GetAssignment(courses, assignments, p, id).Ok?
  {
  }

  /** The 404 for a missing assignment comes before every role and ownership check. */
  lemma MissingAssignmentIsNotFoundForAll(courses: map<Id, Course>, assignments: map<Id, Assignment>,
                                          p: Principal, q: Principal, id: Id)
    requires id !in assignments
    ensures GetAssignment(courses, assignments, p, id) == GetAssignment(courses, assignments, q, id)
    ensures GetAssignment(courses, assignments, p, id).error.Status() == 404
  {
  }

  /** `maxScore || 100`: absent and 0 both give the default. */
  function MaxScoreOrDefault(maxScore: Option<int>): (m: int)
    ensures maxScore.Some? && maxScore.value != 0 ==> m == maxScore.value
    ensures maxScore.None? || maxScore == Some(0) ==> m == DefaultMaxScore
  {
    if maxScore.Some? && maxScore.value != 0 then maxScore.value else DefaultMaxScore
  }

  /** The record `createAssignment` stores. */
  function NewAssignment(title: string, description: string, courseId: Id, dueDate: string,
                         maxScore: Option<int>): (a: Assignment)
    ensures a.course == courseId && a.title == title && a.description == description
    ensures a.dueDate == dueDate && a.maxScore == MaxScoreOrDefault(maxScore)
  {
    Assignment(title, description, courseId, dueDate, MaxScoreOrDefault(maxScore))
  }

  /** The assignment after `updateAssignment`: title, description and due date
      change only to truthy values, maxScore whenever one is sent, the course never. */
  function UpdatedAssignment(a: Assignment, title: Option<string>, description: Option<string>,
                             dueDate: Option<string>, maxScore: Option<int>): (a': Assignment)
    ensures a'.course == a.course
    ensures a'.title == (if Given(title) then title.value else a.title)
    ensures a'.description == (if Given(description) then description.value else a.description)
    ensures a'.dueDate == (if Given(dueDate) then dueDate.value else a.dueDate)
    ensures a'.maxScore == (if maxScore.Some? then maxScore.value else a.maxScore)
  {
    var a1 := if Given(title) then a.(title := title.value) else a;
    var a2 := if Given(description) then a1.(description := description.value) else a1;
    var a3 := if Given(dueDate) then a2.(dueDate := dueDate.value) else a2;
    if maxScore.Some? then a3.(maxScore := maxScore.value) else a3
  }

  /** The two handlers treat a maxScore of 0 differently: creating replaces it by
      the default, updating stores it. */
  lemma ZeroMaxScore(title: string, description: string, courseId: Id, dueDate: string, a: Assignment)
    ensures NewAssignment(title, description, courseId, dueDate, Some(0)).maxScore == DefaultMaxScore
    ensures UpdatedAssignment(a, None, None, None, Some(0)).maxScore == 0
  {
  }
}
