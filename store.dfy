/** The record store and the handlers that change it. The store stands for the
    database: one map per collection keyed by record id, the users in insertion
    order, and a counter that hands out fresh ids. */
module Lms {
  import opened Model
  import opened SubmissionSchema
  import Courses
  import Assignments
  import Submissions
  import Auth
  import Rbac
  import Routes

  /** A newly inserted record and the id it was stored under. */
  datatype Created<T> = Created(id: Id, record: T)

  /** What a course or assignment route answers with on success. */
  datatype Body =
    | CourseList(courses: map<Id, Course>)
    | OneCourse(course: Course)
    | CourseCreated(created: Created<Course>)
    | AssignmentList(assignments: map<Id, Assignment>)
    | OneAssignment(assignment: Assignment)
    | AssignmentCreated(createdAssignment: Created<Assignment>)

  function Lift<T>(res: Result<T>, wrap: T -> Body): (r: Result<Body>)
    ensures res.Err? ==> r == Err(res.error)
    ensures res.Ok? ==> r == Ok(wrap(res.value))
  {
    match res
    case Ok(v) => Ok(wrap(v))
    case Err(e) => Err(e)
  }

  class Store {
    var courses: map<Id, Course>
    var assignments: map<Id, Assignment>
    var submissions: map<Id, Submission>
    var users: seq<User>
    var nextId: nat

    /** The store invariant: ids below the counter, no student listed twice in a
        course, every submission well formed and unique per (assignment, student),
        and no e-mail registered twice. References between records are NOT part
        of it: the handlers cope with a course or assignment that has gone. */
    ghost predicate Valid()
      reads this
    {
      && (forall k :: k in courses ==> k < nextId)
      && (forall k :: k in assignments ==> k < nextId)
      && (forall k :: k in submissions ==> k < nextId)
      && (forall i :: 0 <= i < |users| ==> users[i].id < nextId)
      && (forall k :: k in courses ==> Distinct(courses[k].enrolledStudents))
      && Conforms(submissions)
      && Auth.UniqueEmails(users)
    }

    constructor ()
      ensures Valid()
      ensures courses == map[] && assignments == map[] && submissions == map[] && users == []
    {
      courses, assignments, submissions, users, nextId := map[], map[], map[], [], 0;
    }

    // -------------------------------------------------------------------------
    // courseController
    // -------------------------------------------------------------------------

    /** `createCourse`: no checks; the caller becomes the teacher of a new course. */
    method CreateCourse(p: Principal, title: Option<string>, description: Option<string>,
                        content: Option<string>) returns (r: Result<Created<Course>>)
      requires Valid()
      modifies this
      ensures Valid()
      ensures r.Ok? && r.value.id !in old(courses)
      ensures r.value.record == Courses.NewCourse(p, title, description, content)
      ensures courses == old(courses)[r.value.id := r.value.record]
      ensures assignments == old(assignments) && submissions == old(submissions) && users == old(users)
    {
      var c := Courses.NewCourse(p, title, description, content);
      r := Ok(Created(nextId, c));
      courses := courses[nextId := c];
      nextId := nextId + 1;
    }

    /** `updateCourse`: 404, then 403 unless the caller owns the course, then the
        truthy fields replace the old ones. */
    method UpdateCourse(p: Principal, id: Id, title: Option<string>, description: Option<string>,
                        content: Option<string>) returns (r: Result<Course>)
      requires Valid()
      modifies this
      ensures Valid()
      ensures id !in old(courses) ==> r == Err(NotFound(Courses.CourseNotFound))
      ensures id in old(courses) && !Courses.Owns(p, old(courses)[id]) ==>
        r == Err(Forbidden(Courses.OnlyUpdateOwn))
      ensures r.Err? ==> unchanged(this)
      ensures r.Ok? <==> id in old(courses) && Courses.Owns(p, old(courses)[id])
      ensures r.Ok? ==> r.value == Courses.UpdatedCourse(old(courses)[id], title, description, content)
      ensures r.Ok? ==> courses == old(courses)[id := r.value]
      ensures assignments == old(assignments) && submissions == old(submissions)
      ensures users == old(users) && nextId == old(nextId)
    {
      if id !in courses {
        return Err(NotFound(Courses.CourseNotFound));
      }
      var c := courses[id];
      if c.teacher != p.id {
        return Err(Forbidden(Courses.OnlyUpdateOwn));
      }
      c := Courses.UpdatedCourse(c, title, description, content);
      courses := courses[id := c];
      r := Ok(c);
    }

    /** `enrollInCourse`: 404, then 400 if the caller is already enrolled, else the
        caller is appended. */
    method EnrollInCourse(p: Principal, id: Id) returns (r: Result<Course>)
      requires Valid()
      modifies this
      ensures Valid()
      ensures id !in old(courses) ==> r == Err(NotFound(Courses.CourseNotFound))
      ensures id in old(courses) && p.id in old(courses)[id].enrolledStudents ==>
        r == Err(BadRequest(Courses.AlreadyEnrolled))
      ensures r.Err? ==> unchanged(this)
      ensures r.Ok? <==> id in old(courses) && p.id !in old(courses)[id].enrolledStudents
      ensures r.Ok? ==> r.value == Courses.WithStudent(old(courses)[id], p.id)
      ensures r.Ok? ==> courses == old(courses)[id := r.value]
      ensures assignments == old(assignments) && submissions == old(submissions)
      ensures users == old(users) && nextId == old(nextId)
    {
      if id !in courses {
        return Err(NotFound(Courses.CourseNotFound));
      }
      var c := courses[id];
      if p.id in c.enrolledStudents {
        return Err(BadRequest(Courses.AlreadyEnrolled));
      }
      Courses.WithStudentOnce(c, p.id);
      c := Courses.WithStudent(c, p.id);
      courses := courses[id := c];
      r := Ok(c);
    }

    /** `addStudent`: 404, then 403 unless the caller owns the course, then 400 if
        the student is already enrolled, else the student is appended. */
    method AddStudent(p: Principal, id: Id, studentId: Id) returns (r: Result<Course>)
      requires Valid()
      modifies this
      ensures Valid()
      ensures id !in old(courses) ==> r == Err(NotFound(Courses.CourseNotFound))
      ensures id in old(courses) && !Courses.Owns(p, old(courses)[id]) ==>
        r == Err(Forbidden(Courses.OnlyManageOwn))
      ensures id in old(courses) && Courses.Owns(p, old(courses)[id]) &&
              studentId in old(courses)[id].enrolledStudents ==>
        r == Err(BadRequest(Courses.StudentAlreadyEnrolled))
      ensures r.Err? ==> unchanged(this)
      ensures r.Ok? <==>
        id in old(courses) && Courses.Owns(p, old(courses)[id]) &&
        studentId !in old(courses)[id].enrolledStudents
      ensures r.Ok? ==> r.value == Courses.WithStudent(old(courses)[id], studentId)
      ensures r.Ok? ==> courses == old(courses)[id := r.value]
      ensures assignments == old(assignments) && submissions == old(submissions)
      ensures users == old(users) && nextId == old(nextId)
    {
      if id !in courses {
        return Err(NotFound(Courses.CourseNotFound));
      }
      var c := courses[id];
      if c.teacher != p.id {
        return Err(Forbidden(Courses.OnlyManageOwn));
      }
      if studentId in c.enrolledStudents {
        return Err(BadRequest(Courses.StudentAlreadyEnrolled));
      }
      Courses.WithStudentOnce(c, studentId);
      c := Courses.WithStudent(c, studentId);
      courses := courses[id := c];
      r := Ok(c);
    }

    /** `removeStudent`: 404, then 403 unless the caller owns the course, then the
        student is filtered out; removing someone not enrolled succeeds unchanged. */
    method RemoveStudent(p: Principal, id: Id, studentId: Id) returns (r: Result<Course>)
      requires Valid()
      modifies this
      ensures Valid()
      ensures id !in old(courses) ==> r == Err(NotFound(Courses.CourseNotFound))
      ensures id in old(courses) && !Courses.Owns(p, old(courses)[id]) ==>
        r == Err(Forbidden(Courses.OnlyManageOwn))
      ensures r.Err? ==> unchanged(this)
      ensures r.Ok? <==> id in old(courses) && Courses.Owns(p, old(courses)[id])
      ensures r.Ok? ==> r.value == Courses.WithoutStudent(old(courses)[id], studentId)
      ensures r.Ok? ==> courses == old(courses)[id := r.value]
      ensures r.Ok? && studentId !in old(courses)[id].enrolledStudents ==> courses == old(courses)
      ensures assignments == old(assignments) && submissions == old(submissions)
      ensures users == old(users) && nextId == old(nextId)
    {
      if id !in courses {
        return Err(NotFound(Courses.CourseNotFound));
      }
      var c := courses[id];
      if c.teacher != p.id {
        return Err(Forbidden(Courses.OnlyManageOwn));
      }
      Courses.WithoutStudentSpec(c, studentId);
      c := Courses.WithoutStudent(c, studentId);
      courses := courses[id := c];
      r := Ok(c);
    }

    // -------------------------------------------------------------------------
    // assignmentController
    // -------------------------------------------------------------------------

    /** `createAssignment`: 400 for a missing field, 404 for a missing course, 403
        unless the caller owns it; then a new assignment of that course. */
    method CreateAssignment(p: Principal, title: Option<string>, description: Option<string>,
                            courseId: Option<Id>, dueDate: Option<string>, maxScore: Option<int>)
      returns (r: Result<Created<Assignment>>)
      requires Valid()
      modifies this
      ensures Valid()
      ensures !(Given(title) && Given(description) && courseId.Some? && Given(dueDate)) ==>
        r == Err(BadRequest(Assignments.FieldsRequired))
      ensures Given(title) && Given(description) && courseId.Some? && Given(dueDate) ==>
        && (courseId.value !in old(courses) ==> r == Err(NotFound(Courses.CourseNotFound)))
        && (courseId.value in old(courses) && !Courses.Owns(p, old(courses)[courseId.value]) ==>
              r == Err(Forbidden(Assignments.OnlyCreateOwn)))
      ensures r.Err? ==> unchanged(this)
      ensures r.Ok? <==>
        Given(title) && Given(description) && courseId.Some? && Given(dueDate) &&
        courseId.value in old(courses) && Courses.Owns(p, old(courses)[courseId.value])
      ensures r.Ok? ==>
        && r.value.id !in old(assignments)
        && r.value.record == Assignments.NewAssignment(title.value, description.value, courseId.value,
                                                       dueDate.value, maxScore)
        && assignments == old(assignments)[r.value.id := r.value.record]
      ensures courses == old(courses) && submissions == old(submissions) && users == old(users)
    {
      if !Given(title) || !Given(description) || courseId.None? || !Given(dueDate) {
        return Err(BadRequest(Assignments.FieldsRequired));
      }
      var cid := courseId.value;
      if cid !in courses {
        return Err(NotFound(Courses.CourseNotFound));
      }
      if courses[cid].teacher != p.id {
        return Err(Forbidden(Assignments.OnlyCreateOwn));
      }
      var a := Assignments.NewAssignment(title.value, description.value, cid, dueDate.value, maxScore);
      r := Ok(Created(nextId, a));
      assignments := assignments[nextId := a];
      nextId := nextId + 1;
    }

    /** `updateAssignment`: 404, 500 when its course is gone, 403 unless the caller
        owns the course, then the field-wise update. */
    method UpdateAssignment(p: Principal, id: Id, title: Option<string>, description: Option<string>,
                            dueDate: Option<string>, maxScore: Option<int>) returns (r: Result<Assignment>)
      requires Valid()
      modifies this
      ensures Valid()
      ensures id !in old(assignments) ==> r == Err(NotFound(Assignments.AssignmentNotFound))
      ensures id in old(assignments) && old(assignments)[id].course !in old(courses) ==>
        r == Err(ServerError(NullRead("teacher")))
      ensures id in old(assignments) && old(assignments)[id].course in old(courses) &&
              !Courses.Owns(p, old(courses)[old(assignments)[id].course]) ==>
        r == Err(Forbidden(Assignments.OnlyUpdateOwnAssignments))
      ensures r.Err? ==> unchanged(this)
      ensures r.Ok? <==>
        id in old(assignments) && old(assignments)[id].course in old(courses) &&
        Courses.Owns(p, old(courses)[old(assignments)[id].course])
      ensures r.Ok? ==>
        r.value == Assignments.UpdatedAssignment(old(assignments)[id], title, description, dueDate, maxScore) &&
        assignments == old(assignments)[id := r.value]
      ensures courses == old(courses) && submissions == old(submissions)
      ensures users == old(users) && nextId == old(nextId)
    {
      if id !in assignments {
        return Err(NotFound(Assignments.AssignmentNotFound));
      }
      var a := assignments[id];
      if a.course !in courses {
        return Err(ServerError(NullRead("teacher")));
      }
      if courses[a.course].teacher != p.id {
        return Err(Forbidden(Assignments.OnlyUpdateOwnAssignments));
      }
      a := Assignments.UpdatedAssignment(a, title, description, dueDate, maxScore);
      assignments := assignments[id := a];
      r := Ok(a);
    }

    // -------------------------------------------------------------------------
    // submissionController
    // -------------------------------------------------------------------------

    /** `submitAssignment`: 400 for missing input, 404 for a missing assignment,
        500 when its course is gone, 403 unless enrolled, 400 for a second
        submission; then exactly one new, ungraded submission by the caller. */
    method SubmitAssignment(p: Principal, assignmentId: Option<Id>, content: Option<string>)
      returns (r: Result<Created<Submission>>)
      requires Valid()
      modifies this
      ensures Valid()
      ensures assignmentId.None? || !Given(content) ==> r == Err(BadRequest(Submissions.FieldsRequired))
      ensures assignmentId.Some? && Given(content) ==>
        var aid := assignmentId.value;
        && (aid !in old(assignments) ==> r == Err(NotFound(Assignments.AssignmentNotFound)))
        && (aid in old(assignments) && old(assignments)[aid].course !in old(courses) ==>
              r == Err(ServerError(NullRead("_id"))))
        && (aid in old(assignments) && old(assignments)[aid].course in old(courses) &&
            p.id !in old(courses)[old(assignments)[aid].course].enrolledStudents ==>
              r == Err(Forbidden(Courses.NotEnrolled)))
        && (aid in old(assignments) && old(assignments)[aid].course in old(courses) &&
            p.id in old(courses)[old(assignments)[aid].course].enrolledStudents &&
            HasSubmission(old(submissions), aid, p.id) ==>
              r == Err(BadRequest(Submissions.AlreadySubmitted)))
      ensures r.Err? ==> unchanged(this)
      ensures r.Ok? <==>
        assignmentId.Some? && Given(content) && assignmentId.value in old(assignments) &&
        old(assignments)[assignmentId.value].course in old(courses) &&
        p.id in old(courses)[old(assignments)[assignmentId.value].course].enrolledStudents &&
        !HasSubmission(old(submissions), assignmentId.value, p.id)
      ensures r.Ok? ==>
        && r.value.id !in old(submissions)
        && r.value.record == NewSubmission(assignmentId.value, p.id, content.value)
        && submissions == old(submissions)[r.value.id := r.value.record]
      ensures courses == old(courses) && assignments == old(assignments) && users == old(users)
    {
      if assignmentId.None? || !Given(content) {
        return Err(BadRequest(Submissions.FieldsRequired));
      }
      var aid := assignmentId.value;
      if aid !in assignments {
        return Err(NotFound(Assignments.AssignmentNotFound));
      }
      var cid := assignments[aid].course;
      if cid !in courses {
        return Err(ServerError(NullRead("_id")));
      }
      if p.id !in courses[cid].enrolledStudents {
        return Err(Forbidden(Courses.NotEnrolled));
      }
      if HasSubmission(submissions, aid, p.id) {
        return Err(BadRequest(Submissions.AlreadySubmitted));
      }
      var s := NewSubmission(aid, p.id, content.value);
      InsertKeepsConformance(submissions, nextId, s);
      r := Ok(Created(nextId, s));
      submissions := submissions[nextId := s];
      nextId := nextId + 1;
    }

    /** `gradeSubmission`: the grade is checked first (400), then the chain
        submission -> assignment -> course is followed (404 for the submission,
        500 for a later hop), then 403 unless the caller teaches the course. */
    method GradeSubmission(p: Principal, id: Id, grade: Option<int>, feedback: Option<string>)
      returns (r: Result<Submission>)
      requires Valid()
      modifies this
      ensures Valid()
      ensures Submissions.CheckGrade(grade).Err? ==> r == Err(Submissions.CheckGrade(grade).error)
      ensures Submissions.CheckGrade(grade).Ok? ==>
        var chain := Submissions.ResolveCourse(old(courses), old(assignments), old(submissions), id);
        && (chain.MissingSubmission? ==> r == Err(NotFound(Submissions.SubmissionNotFound)))
        && (chain.MissingAssignment? ==> r == Err(ServerError(NullRead("course"))))
        && (chain.MissingCourse? ==> r == Err(ServerError(NullRead("teacher"))))
        && (chain.Resolved? && !Courses.Owns(p, chain.course) ==>
              r == Err(Forbidden(Submissions.OnlyGradeOwn)))
        && (chain.Resolved? && Courses.Owns(p, chain.course) ==> r.Ok?)
      ensures r.Err? ==> unchanged(this)
      ensures r.Ok? ==>
        && id in old(submissions)
        && r.value == Submissions.Graded(old(submissions)[id], grade.value, feedback, p.id)
        && submissions == old(submissions)[id := r.value]
      ensures courses == old(courses) && assignments == old(assignments)
      ensures users == old(users) && nextId == old(nextId)
    {
      var checked := Submissions.CheckGrade(grade);
      if checked.Err? {
        return Err(checked.error);
      }
      match Submissions.ResolveCourse(courses, assignments, submissions, id)
      case MissingSubmission =>
        r := Err(NotFound(Submissions.SubmissionNotFound));
      case MissingAssignment =>
        r := Err(ServerError(NullRead("course")));
      case MissingCourse =>
        r := Err(ServerError(NullRead("teacher")));
      case Resolved(c) =>
        if c.teacher != p.id {
          r := Err(Forbidden(Submissions.OnlyGradeOwn));
        } else {
          var s := Submissions.Graded(submissions[id], checked.value, feedback, p.id);
          Submissions.GradedWellFormed(submissions[id], grade, feedback, p.id);
          ReplaceKeepsConformance(submissions, id, s);
          submissions := submissions[id := s];
          r := Ok(s);
        }
    }

    // -------------------------------------------------------------------------
    // authController
    // -------------------------------------------------------------------------

    /** `register`: the check chain, then a new user at the end of the store; the
        answer carries a token signed over the new user's claims. */
    method Register(req: Auth.Registration, sign: Auth.Claims -> string) returns (r: Result<Auth.Session>)
      requires Valid()
      modifies this
      ensures Valid()
      ensures Auth.CheckRegistration(old(users), req).Err? ==>
        r == Err(Auth.CheckRegistration(old(users), req).error) && unchanged(this)
      ensures r.Ok? <==> Auth.CheckRegistration(old(users), req).Ok?
      ensures r.Ok? ==>
        var u := User(old(nextId), req.name.value, req.email.value, req.password.value,
                      Auth.CheckRegistration(old(users), req).value);
        && users == old(users) + [u]
        && RoleName(u.role) == req.role.value
        && r.value == Auth.SessionFor(u, sign)
      ensures courses == old(courses) && assignments == old(assignments) && submissions == old(submissions)
    {
      var checked := Auth.CheckRegistration(users, req);
      if checked.Err? {
        return Err(checked.error);
      }
      var u := User(nextId, req.name.value, req.email.value, req.password.value, checked.value);
      users := users + [u];
      nextId := nextId + 1;
      r := Ok(Auth.SessionFor(u, sign));
    }

    // -------------------------------------------------------------------------
    // The routes: the role gate, then the handler
    // -------------------------------------------------------------------------

    /** A course or assignment request as the router runs it: the gate for the
        route's (module, action) first; only if it lets the request through does
        the handler run. */
    method Dispatch(table: Rbac.Table, p: Principal, req: Routes.Request) returns (r: Result<Body>)
      requires Valid()
      modifies this
      ensures Valid()
      ensures
        var route := Routes.RouteOf(req);
        var gate := Rbac.Authorize(table, route.moduleName, route.action, p);
        gate.Reject? ==> r == Err(gate.error) && unchanged(this)
      ensures req.ReadOnly() ==> unchanged(this)
      ensures
        var route := Routes.RouteOf(req);
        Rbac.Authorize(table, route.moduleName, route.action, p).Proceed? ==>
        && (req.ListCourses? ==> r == Lift(Courses.GetCourses(courses, p), m => CourseList(m)))
        && (req.ShowCourse? ==> r == Lift(Courses.GetCourse(courses, p, req.id), c => OneCourse(c)))
        && (req.ListAssignments? ==>
              r == Lift(Assignments.GetAssignments(courses, assignments, p), m => AssignmentList(m)))
        && (req.ShowAssignment? ==>
              r == Lift(Assignments.GetAssignment(courses, assignments, p, req.id), a => OneAssignment(a)))
    {
      var route := Routes.RouteOf(req);
      var gate := Rbac.Authorize(table, route.moduleName, route.action, p);
      if gate.Reject? {
        return Err(gate.error);
      }
      match req
      case ListCourses =>
        r := Lift(Courses.GetCourses(courses, p), m => CourseList(m));
      case ShowCourse(id) =>
        r := Lift(Courses.GetCourse(courses, p, id), c => OneCourse(c));
      case CreateCourse(title, description, content) =>
        var res := CreateCourse(p, title, description, content);
        r := Lift(res, c => CourseCreated(c));
      case UpdateCourse(id, title, description, content) =>
        var res := UpdateCourse(p, id, title, description, content);
        r := Lift(res, c => OneCourse(c));
      case EnrollInCourse(id) =>
        var res := EnrollInCourse(p, id);
        r := Lift(res, c => OneCourse(c));
      case AddStudent(id, studentId) =>
        var res := AddStudent(p, id, studentId);
        r := Lift(res, c => OneCourse(c));
      case RemoveStudent(id, studentId) =>
        var res := RemoveStudent(p, id, studentId);
        r := Lift(res, c => OneCourse(c));
      case ListAssignments =>
        r := Lift(Assignments.GetAssignments(courses, assignments, p), m => AssignmentList(m));
      case ShowAssignment(id) =>
        r := Lift(Assignments.GetAssignment(courses, assignments, p, id), a => OneAssignment(a));
      case CreateAssignment(title, description, courseId, dueDate, maxScore) =>
        var res := CreateAssignment(p, title, description, courseId, dueDate, maxScore);
        r := Lift(res, a => AssignmentCreated(a));
      case UpdateAssignment(id, title, description, dueDate, maxScore) =>
        var res := UpdateAssignment(p, id, title, description, dueDate, maxScore);
        r := Lift(res, a => OneAssignment(a));
    }
  }
}
