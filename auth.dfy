/** Registration and login: the e-mail predicate, the ordered input checks, the
    credential lookup and the claims a token carries. Password comparison and
    token signing are oracles passed in by the caller. */
module Auth {
  import opened Model

  // ---------------------------------------------------------------------------
  // Characters and strings
  // ---------------------------------------------------------------------------

  /** The characters of the JavaScript class `\s` (white space and line
      terminators); `String.prototype.trim` removes exactly these. */
  predicate IsSpace(c: char)
  {
    || c == ' ' || c == '\t' || c == '\n' || c == '\r'
    || c == '\U{000B}' || c == '\U{000C}' || c == '\U{00A0}' || c == '\U{1680}'
    || ('\U{2000}' <= c <= '\U{200A}')
    || c == '\U{2028}' || c == '\U{2029}' || c == '\U{202F}' || c == '\U{205F}'
    || c == '\U{3000}' || c == '\U{FEFF}'
  }

  /** A character of the pattern class `[^\s@]`. */
  predicate Plain(c: char)
  {
    !IsSpace(c) && c != '@'
  }

  predicate AllPlain(s: string)
  {
    forall k :: 0 <= k < |s| ==> Plain(s[k])
  }

  /** `s.trim() === ''`. */
  predicate IsBlank(s: string)
  {
    forall k :: 0 <= k < |s| ==> IsSpace(s[k])
  }

  /** How many times `c` occurs in `s`. */
  function Occurrences(s: string, c: char): nat
  {
    if s == [] then 0 else (if s[0] == c then 1 else 0) + Occurrences(s[1..], c)
  }

  /** `s.length` in JavaScript: characters outside the Basic Multilingual Plane
      take two UTF-16 code units. */
  function Utf16Length(s: string): nat
  {
    if s == [] then 0 else (if s[0] as int > 0xFFFF then 2 else 1) + Utf16Length(s[1..])
  }

  lemma {:induction false} Utf16LengthBounds(s: string)
    ensures |s| <= Utf16Length(s) <= 2 * |s|
  {
    if s != [] {
      Utf16LengthBounds(s[1..]);
    }
  }

  // ---------------------------------------------------------------------------
  // validateEmail: /^[^\s@]+@[^\s@]+\.[^\s@]+$/
  // ---------------------------------------------------------------------------

  /** The index of the first '@' in `s`, or |s| when there is none. */
  function FirstAt(s: string): (i: nat)
    ensures i <= |s|
    ensures i < |s| ==> s[i] == '@'
    ensures forall k :: 0 <= k < i ==> s[k] != '@'
  {
    if s == [] then 0 else if s[0] == '@' then 0 else 1 + FirstAt(s[1..])
  }

  /** `s` has a '.' that is neither its first nor its last character. */
  predicate HasInnerDot(s: string)
  {
    exists k :: 0 < k < |s| - 1 && s[k] == '.'
  }

  /** The e-mail check: split at the first '@' and look at both sides. */
  predicate ValidateEmail(email: string)
  {
    var i := FirstAt(email);
    0 < i < |email| && AllPlain(email[..i]) &&
    AllPlain(email[i + 1..]) && HasInnerDot(email[i + 1..])
  }

  /** The regular expression read directly: `email` is L + "@" + D + "." + T with
      L = email[..i], D = email[i+1..j], T = email[j+1..], each non-empty and free
      of white space and '@'. */
  ghost predicate MatchesPattern(email: string)
  {
    exists i, j :: 0 < i && i + 1 < j && j + 1 < |email| &&
      email[i] == '@' && email[j] == '.' &&
      AllPlain(email[..i]) && AllPlain(email[i + 1..j]) && AllPlain(email[j + 1..])
  }

  /** The check accepts exactly the strings the pattern matches. */
  lemma ValidateEmailMatchesPattern(email: string)
    ensures ValidateEmail(email) <==> MatchesPattern(email)
  {
    if ValidateEmail(email) {
      AcceptedMatches(email);
    }
    if MatchesPattern(email) {
      var i, j :| 0 < i && i + 1 < j && j + 1 < |email| &&
        email[i] == '@' && email[j] == '.' &&
        AllPlain(email[..i]) && AllPlain(email[i + 1..j]) && AllPlain(email[j + 1..]);
      MatchAccepted(email, i, j);
    }
  }

  lemma AcceptedMatches(email: string)
    requires ValidateEmail(email)
    ensures MatchesPattern(email)
  {
    var i := FirstAt(email);
    var rest := email[i + 1..];
    var k :| 0 < k < |rest| - 1 && rest[k] == '.';
    var j := i + 1 + k;
    assert email[i + 1..j] == rest[..k];
    assert email[j + 1..] == rest[k + 1..];
    assert email[j] == '.';
    assert AllPlain(email[i + 1..j]) && AllPlain(email[j + 1..]);
  }

  lemma MatchAccepted(email: string, i: nat, j: nat)
    requires 0 < i && i + 1 < j && j + 1 < |email|
    requires email[i] == '@' && email[j] == '.'
    requires AllPlain(email[..i]) && AllPlain(email[i + 1..j]) && AllPlain(email[j + 1..])
    ensures ValidateEmail(email)
  {
    assert forall k :: 0 <= k < i ==> email[..i][k] == email[k];
    assert FirstAt(email) == i;
    var rest := email[i + 1..];
    var mid, tail := email[i + 1..j], email[j + 1..];
    assert rest == mid + [email[j]] + tail;
    forall k | 0 <= k < |rest|
      ensures Plain(rest[k])
    {
      if k < |mid| {
        assert rest[k] == mid[k];
      } else if k > |mid| {
        assert rest[k] == tail[k - |mid| - 1];
      }
    }
    assert rest[j - i - 1] == '.';
  }

  lemma {:induction false} OccurrencesConcat(a: string, b: string, c: char)
    ensures Occurrences(a + b, c) == Occurrences(a, c) + Occurrences(b, c)
  {
    if a == [] {
      assert a + b == b;
    } else {
      assert (a + b)[1..] == a[1..] + b;
      OccurrencesConcat(a[1..], b, c);
    }
  }

  lemma {:induction false} PlainHasNoAt(s: string)
    requires AllPlain(s)
    ensures Occurrences(s, '@') == 0
  {
    if s != [] {
      assert Plain(s[0]);
      PlainHasNoAt(s[1..]);
    }
  }

  /** An accepted e-mail contains exactly one '@'. */
  lemma AcceptedEmailHasOneAt(email: string)
    requires ValidateEmail(email)
    ensures Occurrences(email, '@') == 1
  {
    var i := FirstAt(email);
    var left, right := email[..i], email[i + 1..];
    assert email == left + [email[i]] + right;
    OccurrencesConcat(left + [email[i]], right, '@');
    OccurrencesConcat(left, [email[i]], '@');
    PlainHasNoAt(left);
    PlainHasNoAt(right);
  }

  /** An accepted e-mail contains no white space. */
  lemma AcceptedEmailHasNoSpace(email: string)
    requires ValidateEmail(email)
    ensures forall k :: 0 <= k < |email| ==> !IsSpace(email[k])
  {
    var i := FirstAt(email);
    var left, right := email[..i], email[i + 1..];
    forall k | 0 <= k < |email|
      ensures !IsSpace(email[k])
    {
      if k < i {
        assert email[k] == left[k];
      } else if k > i {
        assert email[k] == right[k - i - 1];
      }
    }
  }

  // ---------------------------------------------------------------------------
  // Users and tokens
  // ---------------------------------------------------------------------------

  /** `User.findOne({ email })`: the first user, in store order, with that e-mail. */
  function FindUserByEmail(users: seq<User>, email: string): (r: Option<nat>)
    ensures r.Some? ==> r.value < |users| && users[r.value].email == email
    ensures r.Some? ==> forall k :: 0 <= k < r.value ==> users[k].email != email
    ensures r.None? <==> forall k :: 0 <= k < |users| ==> users[k].email != email
  {
    if users == [] then None
    else if users[0].email == email then Some(0)
    else match FindUserByEmail(users[1..], email)
      case None => None
      case Some(k) => Some(k + 1)
  }

  /** Some user is registered under `email`. */
  ghost predicate EmailTaken(users: seq<User>, email: string)
  {
    exists k :: 0 <= k < |users| && users[k].email == email
  }

  /** No two users share an e-mail address. */
  predicate UniqueEmails(users: seq<User>)
  {
    forall i, j :: 0 <= i < j < |users| ==> users[i].email != users[j].email
  }

  /** The claims signed into a token. */
  datatype Claims = Claims(id: Id, email: string, role: Role)

  /** What register and login answer: the token and the public fields of the user. */
  datatype Session = Session(token: string, id: Id, name: string, email: string, role: Role)

  function SessionFor(u: User, sign: Claims -> string): (s: Session)
    ensures s.token == sign(Claims(u.id, u.email, u.role))
    ensures s.id == u.id && s.name == u.name && s.email == u.email && s.role == u.role
  {
    Session(sign(Claims(u.id, u.email, u.role)), u.id, u.name, u.email, u.role)
  }

  // ---------------------------------------------------------------------------
  // register: the check chain
  // ---------------------------------------------------------------------------

  datatype Registration = Registration(
    name: Option<string>,
    email: Option<string>,
    password: Option<string>,
    role: Option<string>)

  const NameRequired := "Name is required"
  const EmailRequired := "Valid email is required"
  const PasswordTooShort := "Password must be at least 6 characters"
  const RoleRequired := "Role must be student or teacher"
  const UserExists := "User already exists"
  const MinPasswordLength := 6

  predicate NameOk(req: Registration) { req.name.Some? && !IsBlank(req.name.value) }
  predicate EmailOk(email: Option<string>) { email.Some? && ValidateEmail(email.value) }
  predicate PasswordOk(req: Registration)
  {
    req.password.Some? && Utf16Length(req.password.value) >= MinPasswordLength
  }
  predicate RoleOk(req: Registration)
  {
    req.role.Some? && req.role.value in {"student", "teacher"}
  }

  /** The checks `register` runs before creating a user, in order; the first
      failing one decides the answer. On success it gives the role to store. */
  function CheckRegistration(users: seq<User>, req: Registration): (r: Result<Role>)
    ensures !NameOk(req) ==> r == Err(BadRequest(NameRequired))
    ensures NameOk(req) && !EmailOk(req.email) ==> r == Err(BadRequest(EmailRequired))
    ensures NameOk(req) && EmailOk(req.email) && !PasswordOk(req) ==>
      r == Err(BadRequest(PasswordTooShort))
    ensures NameOk(req) && EmailOk(req.email) && PasswordOk(req) && !RoleOk(req) ==>
      r == Err(BadRequest(RoleRequired))
    ensures (NameOk(req) && EmailOk(req.email) && PasswordOk(req) && RoleOk(req) &&
             EmailTaken(users, req.email.value)) ==> r == Err(BadRequest(UserExists))
    ensures r.Ok? <==>
      NameOk(req) && EmailOk(req.email) && PasswordOk(req) && RoleOk(req) &&
      !EmailTaken(users, req.email.value)
    ensures r.Ok? ==> RoleName(r.value) == req.role.value
    ensures r.Err? ==> r.error.BadRequest?
  {
    if req.name.None? || IsBlank(req.name.value) then Err(BadRequest(NameRequired))
    else if req.email.None? || !ValidateEmail(req.email.value) then Err(BadRequest(EmailRequired))
    else if req.password.None? || Utf16Length(req.password.value) < MinPasswordLength then
      Err(BadRequest(PasswordTooShort))
    else if req.role.None? || req.role.value !in {"student", "teacher"} then
      Err(BadRequest(RoleRequired))
    else if FindUserByEmail(users, req.email.value).Some? then Err(BadRequest(UserExists))
    else Ok(if req.role.value == "student" then Student else Teacher)
  }

  /** The length check counts UTF-16 code units: six characters always pass it,
      and two characters never do, whatever the characters are. */
  lemma PasswordLengthByCharacters(req: Registration)
    requires req.password.Some?
    ensures |req.password.value| >= MinPasswordLength ==> PasswordOk(req)
    ensures 2 * |req.password.value| < MinPasswordLength ==> !PasswordOk(req)
  {
    Utf16LengthBounds(req.password.value);
  }

  // ---------------------------------------------------------------------------
  // login
  // ---------------------------------------------------------------------------

  const PasswordRequired := "Password is required"
  const InvalidCredentials := "Invalid credentials"

  /** `login`: input checks, then the lookup by e-mail and the password oracle.
      `matches(candidate, stored)` stands for the user's password comparison and
      `sign` for token signing. */
  function Login(users: seq<User>, email: Option<string>, password: Option<string>,
                 matches: (string, string) -> bool, sign: Claims -> string): (r: Result<Session>)
    ensures !EmailOk(email) ==> r == Err(BadRequest(EmailRequired))
    ensures EmailOk(email) && !Given(password) ==> r == Err(BadRequest(PasswordRequired))
    ensures EmailOk(email) && Given(password) && !EmailTaken(users, email.value) ==>
            r == Err(Unauthorized(InvalidCredentials))
    ensures r.Err? && r.error.Status() != 400 ==> r.error == Unauthorized(InvalidCredentials)
    ensures r.Ok? ==>
      && EmailOk(email) && Given(password)
      && exists k :: 0 <= k < |users| && users[k].email == email.value &&
           matches(password.value, users[k].password) && r.value == SessionFor(users[k], sign)
    ensures EmailOk(email) && Given(password) && FindUserByEmail(users, email.value).Some? ==>
      var k := FindUserByEmail(users, email.value).value;
      && (r.Ok? <==> matches(password.value, users[k].password))
      && (r.Ok? ==> r.value == SessionFor(users[k], sign))
  {
    if email.None? || !ValidateEmail(email.value) then Err(BadRequest(EmailRequired))
    else if !Given(password) then Err(BadRequest(PasswordRequired))
    else match FindUserByEmail(users, email.value)
      case None => Err(Unauthorized(InvalidCredentials))
      case Some(k) =>
        if !matches(password.value, users[k].password) then Err(Unauthorized(InvalidCredentials))
        else Ok(SessionFor(users[k], sign))
  }

  /** With e-mails unique, an existing user with a wrong password and an unknown
      e-mail get the same answer. */
  lemma WrongPasswordLooksLikeUnknownUser(users: seq<User>, email: string, password: string,
                                          matches: (string, string) -> bool, sign: Claims -> string, k: nat)
    requires ValidateEmail(email) && password != ""
    requires k < |users| && users[k].email == email && !matches(password, users[k].password)
    requires UniqueEmails(users)
    ensures Login(users, Some(email), Some(password), matches, sign) ==
            Login([], Some(email), Some(password), matches, sign)
  {
    var f := FindUserByEmail(users, email);
    assert f == Some(k);
  }

  /** With e-mails unique, a registered user whose password matches logs in and
      gets their own session. */
  lemma MatchingPasswordLogsIn(users: seq<User>, email: string, password: string,
                               matches: (string, string) -> bool, sign: Claims -> string, k: nat)
    requires ValidateEmail(email) && password != ""
    requires k < |users| && users[k].email == email && matches(password, users[k].password)
    requires UniqueEmails(users)
    ensures Login(users, Some(email), Some(password), matches, sign) == Ok(SessionFor(users[k], sign))
  {
    var f := FindUserByEmail(users, email);
    assert f == Some(k);
  }
}
