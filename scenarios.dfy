/** Walks through the handlers, verified from their contracts alone. */
module Scenarios {
  import opened Model
  import Lms
  import Submissions
  import Courses

  /** Teacher A owns a course with one assignment and enrolls student X. X submits;
      Y, not enrolled, is refused as not enrolled rather than not found. Teacher B
      cannot grade X's submission; A grades it 85. */
  method GradingScenario(a: Principal, b: Principal, x: Principal, y: Principal)
    requires a.role == Teacher && b.role == Teacher && a.id != b.id
    requires x.role == Student && y.role == Student && x.id != y.id
  {
    var store := new Lms.Store();
    var course := store.CreateCourse(a, Some("Algebra"), None, None);
    var cid := course.value.id;
    var added := store.AddStudent(a, cid, x.id);
    assert added.Ok?;
    var asn := store.CreateAssignment(a, Some("Homework 1"), Some("Exercises"), Some(cid),
                                      Some("2026-11-01"), None);
    assert asn.Ok? && asn.value.record.maxScore == 100;
    var aid := asn.value.id;

    var mine := store.SubmitAssignment(x, Some(aid), Some("answer"));
    assert mine.Ok?;
    var sid := mine.value.id;
    var again := store.SubmitAssignment(x, Some(aid), Some("second answer"));
    assert again == Err(BadRequest(Submissions.AlreadySubmitted));
    var theirs := store.SubmitAssignment(y, Some(aid), Some("answer"));
    assert theirs == Err(Forbidden(Courses.NotEnrolled));

    var outOfRange := store.GradeSubmission(a, sid, Some(101), None);
    assert outOfRange.Err? && outOfRange.error.Status() == 400;
    var byB := store.GradeSubmission(b, sid, Some(85), None);
    assert byB == Err(Forbidden(Submissions.OnlyGradeOwn));
    var byA := store.GradeSubmission(a, sid, Some(85), None);
    assert byA.Ok? && byA.value.grade == Some(85) && byA.value.gradedBy == Some(a.id);
    assert store.submissions[sid].content == "answer";
  }
}
