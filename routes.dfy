/** The course and assignment routes: which (module, action) pair of the
    permission table guards each request. */
module Routes {
  import opened Model

  datatype Route = Route(moduleName: string, action: string)

  const CourseView := Route("course", "view")
  const CourseCreate := Route("course", "create")
  const CourseUpdate := Route("course", "update")
  const CourseEnroll := Route("course", "enroll")
  const CourseManageStudents := Route("course", "manage_students")
  const AssignmentView := Route("assignment", "view")
  const AssignmentCreate := Route("assignment", "create")
  const AssignmentUpdate := Route("assignment", "update")

  /** A request to one of the routes, with the parameters and body fields its
      handler reads. */
  datatype Request =
    | ListCourses
    | ShowCourse(id: Id)
    | CreateCourse(title: Option<string>, description: Option<string>, content: Option<string>)
    | UpdateCourse(id: Id, title: Option<string>, description: Option<string>, content: Option<string>)
    | EnrollInCourse(id: Id)
    | AddStudent(id: Id, studentId: Id)
    | RemoveStudent(id: Id, studentId: Id)
    | ListAssignments
    | ShowAssignment(id: Id)
    | CreateAssignment(title: Option<string>, description: Option<string>, courseId: Option<Id>,
                       dueDate: Option<string>, maxScore: Option<int>)
    | UpdateAssignment(id: Id, title: Option<string>, description: Option<string>,
                       dueDate: Option<string>, maxScore: Option<int>)
  {
    /** The request only reads the store. */
    predicate ReadOnly()
    {
      ListCourses? || ShowCourse? || ListAssignments? || ShowAssignment?
    }
  }

  /** The permission each route is mounted behind. */
  function RouteOf(req: Request): (r: Route)
    ensures r.moduleName == (if req.ListAssignments? || req.ShowAssignment? ||
                                req.CreateAssignment? || req.UpdateAssignment?
                             then "assignment" else "course")
    ensures req.ReadOnly() <==> r.action == "view"
    ensures req.CreateCourse? || req.CreateAssignment? ==> r.action == "create"
    ensures req.UpdateCourse? || req.UpdateAssignment? ==> r.action == "update"
    ensures req.EnrollInCourse? ==> r.action == "enroll"
    ensures req.AddStudent? || req.RemoveStudent? ==> r.action == "manage_students"
  {
    match req
    case ListCourses => CourseView
    case ShowCourse(_) => CourseView
    case CreateCourse(_, _, _) => CourseCreate
    case UpdateCourse(_, _, _, _) => CourseUpdate
    case EnrollInCourse(_) => CourseEnroll
    case AddStudent(_, _) => CourseManageStudents
    case RemoveStudent(_, _) => CourseManageStudents
    case ListAssignments => AssignmentView
    case ShowAssignment(_) => AssignmentView
    case CreateAssignment(_, _, _, _, _) => AssignmentCreate
    case UpdateAssignment(_, _, _, _, _) => AssignmentUpdate
  }
}
