/** The submission controller's read-only handlers and the grading update (the
    mutations themselves are methods of Lms.Store). Ownership of a submission is
    resolved in two hops: submission -> assignment -> course -> teacher. */
module Submissions {
  import opened Model
  import opened SubmissionSchema
  import Assignments

  const FieldsRequired := "Assignment ID and content are required"
  const AlreadySubmitted := "Already submitted"
  const OnlyViewOwnSubmissions := "Can only view submissions from your courses"
  const GradeRequired := "Grade is required"
  const GradeOutOfRange := "Grade must be between 0 and 100"
  const SubmissionNotFound := "Submission not found"
  const OnlyGradeOwn := "Can only grade submissions from your courses"

  /** `getMySubmissions`: the caller's own submissions, whatever their role. */
  function GetMySubmissions(subs: map<Id, Submission>, p: Principal): (r: map<Id, Submission>)
    ensures forall k :: k in r <==> k in subs && subs[k].student == p.id
    ensures forall k :: k in r ==> r[k] == subs[k]
  {
    map k | k in subs && subs[k].student == p.id :: subs[k]
  }

  /** `getMyGrades`: the caller's own submissions that carry a grade. */
  function GetMyGrades(subs: map<Id, Submission>, p: Principal): (r: map<Id, Submission>)
    ensures forall k :: k in r <==> k in GetMySubmissions(subs, p) && subs[k].grade.Some?
    ensures forall k :: k in r ==> r[k] == subs[k]
  {
    map k | k in subs && subs[k].student == p.id && subs[k].grade != None :: subs[k]
  }

  /** `getAllSubmissions`: 404 for a missing assignment, 500 when its course is
      gone, 403 unless the caller teaches that course, else exactly the
      submissions for the assignment. */
  function GetAllSubmissions(courses: map<Id, Course>, assignments: map<Id, Assignment>,
                             subs: map<Id, Submission>, p: Principal, assignmentId: Id)
    : (r: Result<map<Id, Submission>>)
    ensures assignmentId !in assignments ==> r == Err(NotFound(Assignments.AssignmentNotFound))
    ensures assignmentId in assignments && assignments[assignmentId].course !in courses ==>
      r == Err(ServerError(NullRead("teacher")))
    ensures r.Ok? <==>
      assignmentId in assignments && assignments[assignmentId].course in courses &&
      courses[assignments[assignmentId].course].teacher == p.id
    ensures assignmentId in assignments && assignments[assignmentId].course in courses &&
            courses[assignments[assignmentId].course].teacher != p.id ==>
      r == Err(Forbidden(OnlyViewOwnSubmissions))
    ensures r.Ok? ==> forall k :: k in r.value <==> k in subs && subs[k].assignment == assignmentId
    ensures r.Ok? ==> forall k :: k in r.value ==> r.value[k] == subs[k]
  {
    if assignmentId !in assignments then Err(NotFound(Assignments.AssignmentNotFound))
    else if assignments[assignmentId].course !in courses then Err(ServerError(NullRead("teacher")))
    else if courses[assignments[assignmentId].course].teacher != p.id then
      Err(Forbidden(OnlyViewOwnSubmissions))
    else Ok(map k | k in subs && subs[k].assignment == assignmentId :: subs[k])
  }

  /** The grade `gradeSubmission` accepts, checked before any lookup. */
  function CheckGrade(grade: Option<int>): (r: Result<int>)
    ensures grade.None? ==> r == Err(BadRequest(GradeRequired))
    ensures grade.Some? && !GradeInRange(grade.value) ==> r == Err(BadRequest(GradeOutOfRange))
    ensures r.Ok? <==> grade.Some? && GradeInRange(grade.value)
    ensures r.Ok? ==> r.value == grade.value
    ensures r.Err? ==> r.error.Status() == 400
  {
    if grade.None? then Err(BadRequest(GradeRequired))
    else if grade.value < 0 || grade.value > 100 then Err(BadRequest(GradeOutOfRange))
    else Ok(grade.value)
  }

  /** Where the ownership chain of a submission ends. */
  datatype Chain = Resolved(course: Course) | MissingSubmission | MissingAssignment | MissingCourse

  /** Follow submission -> assignment -> course, reporting the hop that fails. */
  function ResolveCourse(courses: map<Id, Course>, assignments: map<Id, Assignment>,
                         subs: map<Id, Submission>, id: Id): (c: Chain)
    ensures c.MissingSubmission? <==> id !in subs
    ensures c.MissingAssignment? <==> id in subs && subs[id].assignment !in assignments
    ensures c.MissingCourse? <==>
      id in subs && subs[id].assignment in assignments &&
      assignments[subs[id].assignment].course !in courses
    ensures c.Resolved? ==> c.course == courses[assignments[subs[id].assignment].course]
  {
    if id !in subs then MissingSubmission
    else
      var aid := subs[id].assignment;
      if aid !in assignments then MissingAssignment
      else
        var cid := assignments[aid].course;
        if cid !in courses then MissingCourse else Resolved(courses[cid])
  }

  /** The submission after grading: grade, feedback (default '') and gradedBy are
      set; what was submitted stays as it was. */
  function Graded(s: Submission, grade: int, feedback: Option<string>, teacher: Id): (s': Submission)
    ensures s'.grade == Some(grade) && s'.gradedBy == Some(teacher)
    ensures s'.feedback == (if Given(feedback) then feedback else Some(""))
    ensures s'.assignment == s.assignment && s'.student == s.student && s'.content == s.content
  {
    s.(grade := Some(grade), feedback := if Given(feedback) then feedback else Some(""),
       gradedBy := Some(teacher))
  }

  /** Grading a well-formed submission with an accepted grade keeps it well formed. */
  lemma GradedWellFormed(s: Submission, grade: Option<int>, feedback: Option<string>, teacher: Id)
    requires WellFormed(s) && CheckGrade(grade).Ok?
    ensures WellFormed(Graded(s, CheckGrade(grade).value, feedback, teacher))
  {
  }

  /** Re-grading is not blocked: grading a graded submission again replaces its
      grade, feedback and gradedBy, leaving no trace of the first grading. */
  lemma RegradeOverwrites(s: Submission, g1: int, g2: int, f1: Option<string>, f2: Option<string>,
                          t1: Id, t2: Id)
    ensures Graded(Graded(s, g1, f1, t1), g2, f2, t2) == Graded(s, g2, f2, t2)
  {
  }
}
