# Learning-management authorization core, modelled in Dafny

This project models the authorization and record-keeping logic of a small
learning-management backend (courses, assignments, submissions, users). The web
server and the database are replaced by an in-memory `Lms.Store`. The store holds
one map per collection keyed by record id, the users in insertion order, and a
counter that hands out fresh ids.

The model has three parts.

- **Role gate** (`rbac.dfy`, module `Rbac`). This is a pure three-step lookup in
  the permission table: module, then role, then action. `Decide` gives the
  lookup's verdict. `Authorize` is the middleware: a missing module gives a 500
  configuration error, a role missing under the module gives 403, and an action
  that is missing or `false` gives 403. The (module, action) pair each course and
  assignment route is mounted behind is in `routes.dfy` (module `Routes`).
- **Handlers.** Each handler is a fixed chain of guards: input validation (400),
  record lookup (404), a dangling reference (500), ownership or enrollment (403)
  and uniqueness (400). A small state change follows the guards.
  - The read-only handlers are pure functions over the store's maps, in
    `courses.dfy`, `assignments.dfy` and `submissions.dfy`.
  - The handlers that change records are methods of the `Lms.Store` class in
    `store.dfy`. Their contracts state the whole new store and preserve
    `Store.Valid()`. `Valid()` says four things: ids lie below the counter, no
    student is listed twice in a course, every submission is well formed and
    unique per (assignment, student), and no e-mail is registered twice.
  - `Store.Dispatch` is the composed operation: the gate for the request's route
    runs first, and the handler runs only if the gate lets the request through.
- **Registration and login** (`auth.dfy`, module `Auth`). This covers the
  e-mail predicate, the ordered check chain of `register`, and `login`'s lookup
  and credential check. Password comparison and token signing are oracles
  passed in by the caller.

The submission schema is in `submission_schema.dfy`: required fields, grade
bounds and the unique (assignment, student) index. `scenarios.dfy` walks through
a grading and submission scenario, verified from the handler contracts alone.

Some ownership chains go through a record that no longer exists. Examples are an
assignment whose course is gone, or a submission whose assignment is gone. In
the source, `populate` then yields `null`, and the next property read throws a
TypeError that the handler's `catch` turns into a 500. The model follows these
chains hop by hop (`Submissions.ResolveCourse`) and returns an explicit
`ServerError` that carries the TypeError's message. This means the store
invariant cannot include referential integrity.

A lookup miss is reported before any ownership check. So an unauthorized caller
can tell "does not exist" (404) apart from "exists but not yours" (403). The
model keeps this order as the code has it.

Where a reader might expect otherwise, the model follows the code:
- Enrollment does not check the caller's role inside the handler. Only the
  permission table's `course`/`enroll` entry restricts it.
- A second submission is a 400 validation error, not a 403.
- Re-grading a graded submission is allowed: nothing makes grading one-way.
- `enrolledStudents` is a list, kept duplicate-free by the guards.

## Model

| member | source | states |
|---|---|---|
| `Rbac.Decide` | middleware/rbac.js:8-29 | unknown module iff the module is absent; unknown role iff the module is present and the role is absent; allowed iff module, role and action all resolve and the action maps to true; explicit denial iff the action is missing or false |
| `Rbac.Authorize` | middleware/rbac.js:3-31 | the request proceeds iff the lookup allows it; a missing module gives a 500 with the configuration message whatever the role; a missing role gives a 403 with its message; an explicit denial gives the 403 "Access denied. Role '…' cannot '…' in '…'."; with the module present every rejection is a 403; a rejection is a 500 exactly when the module is missing |
| `Rbac.ModuleCheckedFirst` | middleware/rbac.js:8-22 | if the module is absent, every role and every action gets the same 500, so a missing module is reported before anything else |
| `Rbac.GateSeesOnlyRole` | middleware/rbac.js:3-31 | two callers with the same role get the same answer, so the gate never depends on the caller's identity or on the resource |
| `Routes.RouteOf` | routes/courses.js:9-15 | course routes are guarded by module "course" and assignment routes (routes/assignments.js:9-12) by "assignment"; a request uses action "view" exactly when it only reads; creating uses "create", updating "update", enrolling "enroll", and adding or removing a student "manage_students" |
| `Auth.IsBlank` | controllers/authController.js:25 | `name.trim() === ''`: the name consists of JavaScript white-space characters only (the empty name included); its use is stated in `Auth.CheckRegistration` |
| `Auth.Utf16Length` | controllers/authController.js:33 | `password.length`: the number of UTF-16 code units, two for a character outside the Basic Multilingual Plane; bounded in `Auth.Utf16LengthBounds` |
| `Auth.ValidateEmail` | controllers/authController.js:4-7 | `validateEmail`: split at the first '@'; the left part and the right part are non-empty and free of white space and '@', and the right part has a '.' with a character on each side; proved equal to the regular expression in `Auth.ValidateEmailMatchesPattern` |
| `Auth.ValidateEmailMatchesPattern` | controllers/authController.js:4-7 | the e-mail check accepts exactly the strings L@D.T where L, D and T are non-empty and contain no white space and no '@' |
| `Auth.AcceptedEmailHasOneAt` | controllers/authController.js:5 | an accepted e-mail contains exactly one '@' |
| `Auth.AcceptedEmailHasNoSpace` | controllers/authController.js:5 | an accepted e-mail contains no white-space character |
| `Auth.Utf16LengthBounds` | controllers/authController.js:33 | the JavaScript length of a password lies between its character count and twice that count |
| `Auth.PasswordLengthByCharacters` | controllers/authController.js:33 | a password of six or more characters always passes the length check, and one of two or fewer never does, whatever its characters |
| `Auth.FindUserByEmail` | controllers/authController.js:41 | the lookup finds the first user in store order with that e-mail, or reports that no user has it |
| `Auth.SessionFor` | controllers/authController.js:9-15 | the token is signed over the user's id, e-mail and role, and the reply echoes the user's id, name, e-mail and role |
| `Auth.CheckRegistration` | controllers/authController.js:25-47 | the first failing check decides the 400, in this order: blank name, invalid e-mail, password under 6 UTF-16 units, role not student/teacher, e-mail already registered; it succeeds iff all pass, and then the role is the one requested |
| `Auth.Login` | controllers/authController.js:66-84 | an invalid e-mail or an empty password gives 400 before any lookup; an unknown e-mail gives 401 "Invalid credentials", and it is the only non-400 error; once the inputs are valid and a user with that e-mail is found, login succeeds exactly when the password matches, answered with that user's session; success always means such a user |
| `Auth.WrongPasswordLooksLikeUnknownUser` | controllers/authController.js:74-77 | when e-mails are unique, a wrong password for an existing user gets exactly the answer an unknown e-mail gets |
| `Auth.MatchingPasswordLogsIn` | controllers/authController.js:74-85 | when e-mails are unique, a valid e-mail and a non-empty password that matches a registered user's log in as that user, with that user's session |
| `SubmissionSchema.WellFormed` | models/Submission.js:14-26 | what the schema validates on one record: content is required and non-empty, and a grade, when present, lies in [0, 100] |
| `SubmissionSchema.HasSubmission` | controllers/submissionController.js:26-29 | `Submission.findOne({ assignment, student })` finds a record for that pair |
| `SubmissionSchema.Conforms` | models/Submission.js:3-34 | the whole collection satisfies the schema: every record well formed and at most one record per (assignment, student), the unique index of line 34 |
| `SubmissionSchema.NewSubmission` | models/Submission.js:4-31 | a fresh submission has no grade, no feedback and no gradedBy, and it is well formed when its content is non-empty |
| `SubmissionSchema.InsertKeepsConformance` | models/Submission.js:34 | inserting a well-formed submission under a new id, for a pair that has none, keeps every pair unique and every record well formed |
| `SubmissionSchema.ReplaceKeepsConformance` | models/Submission.js:22-34 | replacing a submission by a well-formed one for the same (assignment, student) keeps the store conforming |
| `Courses.Owns` | controllers/courseController.js:44 | the caller is the course's teacher: the teacher check of `getCourse` (and of the manage routes, lines 123 and 150) |
| `Courses.MayView` | controllers/courseController.js:35-46 | a student may view a course they are enrolled in, a teacher one they teach; used by `Courses.GetCourse` and `Assignments.GetAssignment` (controllers/assignmentController.js:32-43) |
| `Courses.GetCoursesAsWritten` | controllers/courseController.js:5-23 | as written: a teacher always gets the 500 "as is not defined"; a student gets exactly the courses whose students include them |
| `Courses.GetCourses` | controllers/courseController.js:9-19 | corrected: every caller gets exactly the courses it may view (enrolled ones for a student, taught ones for a teacher), with their stored records |
| `Courses.GetCoursesDefect` | controllers/courseController.js:12 | the as-written and corrected listings differ exactly for teachers |
| `Courses.GetCourse` | controllers/courseController.js:25-48 | a missing course gives 404 before any role check; otherwise the call succeeds iff the caller may view the course (a student iff enrolled, a teacher iff owner); a refusal is the 403 "Not enrolled in this course" for a student and "Can only view your own courses" for a teacher |
| `Courses.ListedIffViewable` | controllers/courseController.js:9-46 | for the corrected listing, a course appears in the caller's listing exactly when opening it succeeds (as written, a teacher's listing is always the 500 of line 21) |
| `Courses.NewCourse` | controllers/courseController.js:57-62 | the created course is owned by the caller, has no students and keeps the given texts |
| `Courses.UpdatedCourse` | controllers/courseController.js:82-85 | title, description and content are replaced only by truthy new values; teacher and students never change |
| `Courses.WithStudent` | controllers/courseController.js:106 | `enrolledStudents.push(id)`: the id is appended at the end (also line 133); its effect is stated in `Courses.WithStudentOnce` |
| `Courses.WithStudentOnce` | controllers/courseController.js:102-106 | appending a student who was not enrolled puts them in exactly once, changes no one else's count and keeps the list duplicate-free |
| `Courses.Without` | controllers/courseController.js:154-156 | `filter(id => id !== x)`: the entries other than x, in their order; stated in `Courses.WithoutMembers`, `Courses.WithoutConcat`, `Courses.WithoutAbsent` and `Courses.WithoutDistinct` |
| `Courses.WithoutMembers` | controllers/courseController.js:154-156 | the filtered list holds exactly the old entries other than the removed id |
| `Courses.WithoutConcat` | controllers/courseController.js:154-156 | filtering distributes over concatenation, so the surviving entries keep their order |
| `Courses.WithoutAbsent` | controllers/courseController.js:154-156 | filtering out an id that is not listed leaves the list unchanged |
| `Courses.WithoutDistinct` | controllers/courseController.js:154-156 | filtering keeps a duplicate-free list duplicate-free |
| `Courses.WithoutStudent` | controllers/courseController.js:154-156 | the course with that student filtered out of its list and nothing else changed; stated in `Courses.WithoutStudentSpec` |
| `Courses.WithoutStudentSpec` | controllers/courseController.js:150-156 | after removal the student is gone, everyone else stays, there are no duplicates, the teacher is unchanged, and removing a non-enrolled student changes nothing |
| `Assignments.GetAssignments` | controllers/assignmentController.js:8-18 | the caller gets exactly the assignments whose course exists and is viewable by them (enrolled for a student, taught for a teacher) |
| `Assignments.GetAssignment` | controllers/assignmentController.js:26-45 | a missing assignment gives 404; a missing course gives the 500 of a null read, on `_id` for a student and on `teacher` for a teacher; otherwise the call succeeds iff the caller may view the course, and a refusal is the 403 "Not enrolled in this course" for a student and "Can only view assignments from your courses" for a teacher |
| `Assignments.ListedIffViewable` | controllers/assignmentController.js:8-43 | an assignment appears in the caller's listing exactly when opening it succeeds |
| `Assignments.MissingAssignmentIsNotFoundForAll` | controllers/assignmentController.js:28-30 | a missing assignment gives the same 404 to every caller whatever their role |
| `Assignments.MaxScoreOrDefault` | controllers/assignmentController.js:76 | a non-zero sent maxScore is kept; an absent maxScore or 0 becomes 100 |
| `Assignments.NewAssignment` | controllers/assignmentController.js:71-77 | the created assignment references the given course, keeps the given fields and has the defaulted maxScore |
| `Assignments.UpdatedAssignment` | controllers/assignmentController.js:97-101 | title, description and due date change only to truthy values; maxScore changes whenever one is sent, 0 included; the course never changes |
| `Assignments.ZeroMaxScore` | controllers/assignmentController.js:71-101 | a maxScore of 0 becomes 100 on creation but is stored as 0 on update |
| `Submissions.GetMySubmissions` | controllers/submissionController.js:47-53 | the caller gets exactly the submissions whose student is the caller |
| `Submissions.GetMyGrades` | controllers/submissionController.js:118-127 | the caller gets exactly their own submissions that carry a grade |
| `Submissions.GetAllSubmissions` | controllers/submissionController.js:59-75 | a missing assignment gives 404 and a missing course gives 500; the call succeeds iff the caller teaches the assignment's course, anyone else gets the 403 "Can only view submissions from your courses", and on success it returns exactly the submissions for that assignment |
| `Submissions.CheckGrade` | controllers/submissionController.js:85-91 | a missing grade gives 400 "Grade is required" and one outside [0,100] gives 400 "Grade must be between 0 and 100"; the grade is accepted iff it lies in [0,100]; every rejection is a 400 |
| `Submissions.ResolveCourse` | controllers/submissionController.js:93-103 | the chain submission -> assignment -> course reports the first missing hop, or the course that decides ownership |
| `Submissions.Graded` | controllers/submissionController.js:107-109 | grading sets the grade, sets gradedBy to the caller and sets the feedback (default ''); assignment, student and content stay as they were |
| `Submissions.GradedWellFormed` | controllers/submissionController.js:85-109 | grading a well-formed submission with an accepted grade leaves it well formed, so the grade stays in bounds |
| `Submissions.RegradeOverwrites` | controllers/submissionController.js:107-111 | grading twice is allowed, and the second grading, whatever its grade, feedback and gradedBy, fully replaces the first |
| `Lms.Store.Valid` | models/Submission.js:3-34 | the store invariant every mutating method keeps: ids below the counter, the submissions conforming to their schema, no student listed twice in a course (the checks of controllers/courseController.js:102 and 129), and no e-mail registered twice (controllers/authController.js:41-44); references between records are deliberately not part of it |
| `Lms.Store.CreateCourse` | controllers/courseController.js:54-64 | always succeeds; the new course is stored under a fresh id, owned by the caller; nothing else changes |
| `Lms.Store.UpdateCourse` | controllers/courseController.js:70-88 | 404 for a missing course, then 403 for a non-owner, with no change in either case; an owner gets the field-wise update, and only that course changes |
| `Lms.Store.EnrollInCourse` | controllers/courseController.js:94-109 | 404 for a missing course; 400 with no change if already enrolled; otherwise the caller is appended and the list stays duplicate-free |
| `Lms.Store.AddStudent` | controllers/courseController.js:115-136 | 404, then 403 for a non-owner, then 400 for an enrolled student, with no change in each case; otherwise the student is appended |
| `Lms.Store.RemoveStudent` | controllers/courseController.js:142-159 | 404, then 403 for a non-owner, with no change; otherwise the course's list is the filtered list, and removing a non-enrolled student leaves the store unchanged |
| `Lms.Store.CreateAssignment` | controllers/assignmentController.js:51-79 | 400 for a missing field before any lookup, 404 for a missing course, 403 for a non-owner, with nothing created in these cases; otherwise exactly one new assignment is added under a fresh id |
| `Lms.Store.UpdateAssignment` | controllers/assignmentController.js:85-104 | 404, 500 for a missing course, 403 for a non-owner, with no change in these cases; otherwise the field-wise update of that assignment only |
| `Lms.Store.SubmitAssignment` | controllers/submissionController.js:5-41 | 400 for missing input, 404, 500 for a missing course, 403 unless enrolled (checked before the duplicate check), 400 for an existing (assignment, caller) submission, with no change in these cases; otherwise exactly one new ungraded submission by the caller |
| `Lms.Store.GradeSubmission` | controllers/submissionController.js:81-112 | the grade is checked before any lookup; then 404, 500 for a later missing hop, 403 for a non-owning teacher, with no change in these cases; otherwise only that submission is replaced by its graded form |
| `Lms.Store.Register` | controllers/authController.js:21-56 | a failed check (a duplicate e-mail included) returns that check's 400 and creates no user; success appends exactly one user with the requested role and answers with that user's session |
| `Lms.Store.Dispatch` | routes/courses.js:9-15 | for the course routes and the assignment routes of routes/assignments.js:9-12, the route's gate runs first: a rejection is returned unchanged with the store untouched; read-only routes never change the store and return the pure handler's answer |

## Left out

- Persistence is replaced by maps and a sequence. `find`, `findById`, `populate`,
  `save` and `create` become map lookups and updates; a `populate` that finds
  nothing becomes a missing key.
- HTTP transport, Express routing and the shaping of JSON responses are not
  modelled. Success statuses 200 and 201 are not told apart. Only the error kind
  and its message are kept.
- Route files for submissions and authentication are not part of this model.
  So `Store.Dispatch` gates only the course and assignment routes, and the
  submission and auth handlers are called directly.
- JWT signing is the oracle `sign`, and `comparePassword` is the oracle `matches`.
  Both are parameters. Token expiry and the secret live inside `sign`.
- The User and Course models and the permission configuration file are not part
  of this model. The permission table is a parameter, and the principal is an
  input. Roles are the two-valued `Role`. A course's stored texts are kept as
  given, with no schema validation.
- `getCourse` populates the teacher and students from the users collection. If
  the teacher's user record were gone, a teacher's call would throw. The model
  reads the ids directly and does not model that 500.
- Timestamps (`submittedAt`, `createdAt`) are not modelled, because they need a clock.
- Concurrency is not modelled (async handlers, simultaneous requests, and the
  database index that stops a race between two submissions). The model is
  sequential.
- JavaScript type coercion is not modelled. Ids are opaque values with equality,
  and ObjectId-versus-string comparison is not modelled. A request field is
  either absent or a value of its declared type. Non-string names and `null`
  fields are not modelled, and neither are the 500s they would cause.
- Submissions.CheckGrade: grades and maxScore are integers, so fractional and
  `NaN` grades are not modelled.
- Lms.Store.AddStudent: `studentId` is always present, because an absent body
  field would be pushed as `undefined` and its effect depends on the unseen
  Course schema.
- Lms.Store.Dispatch: for the mutating routes, the contract states only the gate
  and the invariant. Each handler's result is stated by that handler's own
  method contract.
- Other exceptions that the catch-all turns into 500 are not modelled, such as a
  malformed id or a database failure. The model has 500s only for dangling
  references and the `getCourses` defect.

## Findings

| source | as written | input that shows it | evidently intended | confidence | as-written member | corrected member |
|---|---|---|---|---|---|---|
| controllers/courseController.js:12 | the teacher branch ends in `;as`, which reads an undeclared identifier, so a ReferenceError is thrown and the catch answers 500 | any teacher calling `getCourses` | a teacher gets the courses they teach | high (not executed) | `Courses.GetCoursesAsWritten` | `Courses.GetCourses` |

`Courses.GetCoursesDefect` proves that the two versions differ exactly for
teachers. `Store.Dispatch` uses the corrected listing.
