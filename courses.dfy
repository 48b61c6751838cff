/** The course controller's read-only handlers and the record updates its
    mutating handlers apply (the mutations themselves are methods of Lms.Store). */
module Courses {
  import opened Model

  const CourseNotFound := "Course not found"
  const NotEnrolled := "Not enrolled in this course"
  const OnlyOwnCourses := "Can only view your own courses"
  const OnlyUpdateOwn := "Can only update your own courses"
  const OnlyManageOwn := "Can only manage your own courses"
  const AlreadyEnrolled := "Already enrolled"
  const StudentAlreadyEnrolled := "Student already enrolled"

  // ---------------------------------------------------------------------------
  // Ownership predicates
  // ---------------------------------------------------------------------------

  /** The caller is the course's teacher. */
  predicate Owns(p: Principal, c: Course)
  {
    c.teacher == p.id
  }

  /** Who may see a course: a student enrolled in it, or its own teacher. */
  predicate MayView(p: Principal, c: Course)
  {
    match p.role
    case Student => p.id in c.enrolledStudents
    case Teacher => Owns(p, c)
  }

  /** The ids of the courses a caller's listing draws from: the courses a student
      is enrolled in, or the courses a teacher teaches. */
  function CoursesOf(courses: map<Id, Course>, p: Principal): set<Id>
  {
    if p.role == Student then set k | k in courses && p.id in courses[k].enrolledStudents
    else set k | k in courses && courses[k].teacher == p.id
  }

  // ---------------------------------------------------------------------------
  // getCourses
  // ---------------------------------------------------------------------------

  /** `getCourses` as the source has it: the teacher branch ends in a stray
      expression statement `as`, an undeclared identifier, so reading it throws a
      ReferenceError and every teacher call ends in the catch-all 500. */
  function GetCoursesAsWritten(courses: map<Id, Course>, p: Principal): (r: Result<map<Id, Course>>)
    ensures p.role == Teacher ==> r == Err(ServerError("as is not defined"))
    ensures p.role == Student ==> r.Ok?
    ensures p.role == Student ==>
      forall k :: k in r.value <==> k in courses && p.id in courses[k].enrolledStudents
    ensures r.Ok? ==> forall k :: k in r.value ==> r.value[k] == courses[k]
  {
    if p.role == Student then
      Ok(map k | k in courses && p.id in courses[k].enrolledStudents :: courses[k])
    else
      Err(ServerError("as is not defined"))
  }

  /** `getCourses` with the stray identifier removed: every caller gets exactly
      the courses it may view. */
  function GetCourses(courses: map<Id, Course>, p: Principal): (r: Result<map<Id, Course>>)
    ensures r.Ok?
    ensures forall k :: k in r.value <==> k in courses && MayView(p, courses[k])
    ensures forall k :: k in r.value ==> r.value[k] == courses[k]
  {
    var ids := CoursesOf(courses, p);
    Ok(map k | k in ids :: courses[k])
  }

  /** The defect: the two versions part exactly on teachers, and for students they agree. */
  lemma GetCoursesDefect(courses: map<Id, Course>, p: Principal)
    ensures p.role == Teacher <==> GetCoursesAsWritten(courses, p) != GetCourses(courses, p)
  {
    if p.role == Student {
      var a, b := GetCoursesAsWritten(courses, p).value, GetCourses(courses, p).value;
      assert a.Keys == b.Keys;
      assert forall k :: k in a ==> a[k] == b[k];
    }
  }

  // ---------------------------------------------------------------------------
  // getCourse
  // ---------------------------------------------------------------------------

  /** `getCourse`: lookup first, then the role's ownership check. */
  function GetCourse(courses: map<Id, Course>, p: Principal, id: Id): (r: Result<Course>)
    ensures id !in courses ==> r == Err(NotFound(CourseNotFound))
    ensures id in courses ==> (r.Ok? <==> MayView(p, courses[id]))
    ensures r.Ok? ==> r.value == courses[id]
    ensures id in courses && !MayView(p, courses[id]) ==>
      r == Err(Forbidden(if p.role == Student then NotEnrolled else OnlyOwnCourses))
    ensures r.Err? && id in courses ==> r.error.Status() == 403
  {
    if id !in courses then Err(NotFound(CourseNotFound))
    else if p.role == Student && p.id !in courses[id].enrolledStudents then Err(Forbidden(NotEnrolled))
    else if p.role == Teacher && courses[id].teacher != p.id then Err(Forbidden(OnlyOwnCourses))
    else Ok(courses[id])
  }

  /** A course is listed for a caller exactly when the caller may open it. */
  lemma ListedIffViewable(courses: map<Id, Course>, p: Principal, id: Id)
    ensures id in GetCourses(courses, p).value <==> GetCourse(courses, p, id).Ok?
  {
  }

  // ---------------------------------------------------------------------------
  // Record updates of createCourse, updateCourse, enrollInCourse, addStudent, removeStudent
  // ---------------------------------------------------------------------------

  /** The course `createCourse` stores: the caller becomes its teacher. */
  function NewCourse(p: Principal, title: Option<string>, description: Option<string>,
                     content: Option<string>): (c: Course)
    ensures Owns(p, c) && c.enrolledStudents == []
    ensures c.title == title && c.description == description && c.content == content
  {
    Course(title, description, content, p.id, [])
  }

  /** `x || fallback` on a string field. */
  function Fallback(x: Option<string>, fallback: Option<string>): (r: Option<string>)
    ensures Given(x) ==> r == x
    ensures !Given(x) ==> r == fallback
  {
    if Given(x) then x else fallback
  }

  /** The course after `updateCourse`: each text field is replaced only by a
      truthy new value; teacher and students are never touched. */
  function UpdatedCourse(c: Course, title: Option<string>, description: Option<string>,
                         content: Option<string>): (c': Course)
    ensures c'.teacher == c.teacher && c'.enrolledStudents == c.enrolledStudents
    ensures c'.title == (if Given(title) then title else c.title)
    ensures c'.description == (if Given(description) then description else c.description)
    ensures c'.content == (if Given(content) then content else c.content)
  {
    c.(title := Fallback(title, c.title),
       description := Fallback(description, c.description),
       content := Fallback(content, c.content))
  }

  /** The course after `enrolledStudents.push(s)`. */
  function WithStudent(c: Course, s: Id): Course
  {
    c.(enrolledStudents := c.enrolledStudents + [s])
  }

  /** Appending a student who was not enrolled enrolls them exactly once and keeps
      the list free of duplicates; nothing else about the course changes. */
  lemma WithStudentOnce(c: Course, s: Id)
    requires Distinct(c.enrolledStudents) && s !in c.enrolledStudents
    ensures Distinct(WithStudent(c, s).enrolledStudents)
    ensures multiset(WithStudent(c, s).enrolledStudents)[s] == 1
    ensures forall x :: x != s ==>
      multiset(WithStudent(c, s).enrolledStudents)[x] == multiset(c.enrolledStudents)[x]
    ensures WithStudent(c, s).teacher == c.teacher
  {
    var xs := c.enrolledStudents;
    var ys := xs + [s];
    assert multiset(ys) == multiset(xs) + multiset{s};
    forall i, j | 0 <= i < j < |ys|
      ensures ys[i] != ys[j]
    {
      if j == |xs| {
        assert ys[i] == xs[i];
      }
    }
  }

  /** `xs.filter(id => id !== x)`. */
  function Without(xs: seq<Id>, x: Id): seq<Id>
  {
    if xs == [] then [] else (if xs[0] == x then [] else [xs[0]]) + Without(xs[1..], x)
  }

  /** The filter keeps exactly the entries other than `x`. */
  lemma {:induction false} WithoutMembers(xs: seq<Id>, x: Id)
    ensures forall y :: y in Without(xs, x) <==> y in xs && y != x
  {
    if xs != [] {
      WithoutMembers(xs[1..], x);
      assert xs == [xs[0]] + xs[1..];
    }
  }

  /** The filter works piecewise, so it keeps the surviving entries in their order. */
  lemma {:induction false} WithoutConcat(a: seq<Id>, b: seq<Id>, x: Id)
    ensures Without(a + b, x) == Without(a, x) + Without(b, x)
  {
    if a == [] {
      assert a + b == b;
    } else {
      assert (a + b)[1..] == a[1..] + b;
      WithoutConcat(a[1..], b, x);
    }
  }

  /** Filtering out an id that is not there changes nothing. */
  lemma {:induction false} WithoutAbsent(xs: seq<Id>, x: Id)
    requires x !in xs
    ensures Without(xs, x) == xs
  {
    if xs != [] {
      WithoutAbsent(xs[1..], x);
      assert xs == [xs[0]] + xs[1..];
    }
  }

  /** Filtering keeps a duplicate-free list duplicate-free. */
  lemma {:induction false} WithoutDistinct(xs: seq<Id>, x: Id)
    requires Distinct(xs)
    ensures Distinct(Without(xs, x))
  {
    if xs != [] {
      var tail := xs[1..];
      assert Distinct(tail) by {
        forall i, j | 0 <= i < j < |tail| ensures tail[i] != tail[j] {
          assert tail[i] == xs[i + 1] && tail[j] == xs[j + 1];
        }
      }
      WithoutDistinct(tail, x);
      WithoutMembers(tail, x);
      var rest := Without(tail, x);
      if xs[0] != x {
        assert xs[0] !in tail by {
          forall j | 0 <= j < |tail| ensures tail[j] != xs[0] {
            assert tail[j] == xs[j + 1];
          }
        }
        var ys := [xs[0]] + rest;
        forall i, j | 0 <= i < j < |ys| ensures ys[i] != ys[j] {
          if i == 0 {
            assert ys[j] == rest[j - 1];
            assert ys[j] in rest;
          } else {
            assert ys[i] == rest[i - 1] && ys[j] == rest[j - 1];
          }
        }
      } else {
        assert Without(xs, x) == rest;
      }
    }
  }

  /** The course after `removeStudent`. */
  function WithoutStudent(c: Course, s: Id): Course
  {
    c.(enrolledStudents := Without(c.enrolledStudents, s))
  }

  /** Removing a student takes out every occurrence, keeps everyone else, keeps the
      list duplicate-free, and leaves a course the student is not in unchanged. */
  lemma WithoutStudentSpec(c: Course, s: Id)
    requires Distinct(c.enrolledStudents)
    ensures s !in WithoutStudent(c, s).enrolledStudents
    ensures forall y :: y != s ==>
      (y in WithoutStudent(c, s).enrolledStudents <==> y in c.enrolledStudents)
    ensures Distinct(WithoutStudent(c, s).enrolledStudents)
    ensures s !in c.enrolledStudents ==> WithoutStudent(c, s) == c
    ensures WithoutStudent(c, s).teacher == c.teacher
  {
    WithoutMembers(c.enrolledStudents, s);
    WithoutDistinct(c.enrolledStudents, s);
    if s !in c.enrolledStudents {
      WithoutAbsent(c.enrolledStudents, s);
    }
  }
}
