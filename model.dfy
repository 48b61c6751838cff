/** Identifiers, principals, stored records and the outcome of a request handler,
    shared by every part of the learning-management model. */
module Model {

  /** Record identifiers are opaque values compared only for equality. */
  type Id = nat

  datatype Option<+T> = None | Some(value: T)

  /** The two roles a user can hold. */
  datatype Role = Student | Teacher

  /** The role's name as it appears in requests, tokens and the permission table. */
  function RoleName(r: Role): string
  {
    match r
    case Student => "student"
    case Teacher => "teacher"
  }

  /** The authenticated caller of a request, as the authentication layer supplies it. */
  datatype Principal = Principal(id: Id, role: Role)

  /** Why a request was refused; each kind is one HTTP status. */
  datatype Error =
    | BadRequest(reason: string)
    | Unauthorized(reason: string)
    | Forbidden(reason: string)
    | NotFound(reason: string)
    | ServerError(reason: string)
  {
    function Status(): int
    {
      match this
      case BadRequest(_) => 400
      case Unauthorized(_) => 401
      case Forbidden(_) => 403
      case NotFound(_) => 404
      case ServerError(_) => 500
    }
  }

  datatype Result<+T> = Ok(value: T) | Err(error: Error)

  /** A request string field that JavaScript treats as truthy: present and non-empty. */
  predicate Given(s: Option<string>)
  {
    s.Some? && s.value != ""
  }

  /** The message of the TypeError raised when a property of a null reference is read. */
  function NullRead(property: string): string
  {
    "Cannot read properties of null (reading '" + property + "')"
  }

  /** A course; `teacher` is its owner, `enrolledStudents` the ids of its students. */
  datatype Course = Course(
    title: Option<string>,
    description: Option<string>,
    content: Option<string>,
    teacher: Id,
    enrolledStudents: seq<Id>)

  /** An assignment of the course `course`. */
  datatype Assignment = Assignment(
    title: string,
    description: string,
    course: Id,
    dueDate: string,
    maxScore: int)

  /** A registered user; `password` is whatever the user store keeps for the password. */
  datatype User = User(id: Id, name: string, email: string, password: string, role: Role)

  /** No identifier occurs twice in `xs`. */
  predicate Distinct(xs: seq<Id>)
  {
    forall i, j :: 0 <= i < j < |xs| ==> xs[i] != xs[j]
  }
}
