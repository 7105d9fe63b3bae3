/**
 * The account forms of app/routes/auth.py: the field validator lists, the extra checks of
 * each form's `validate` against the user table, and the register and profile routes that
 * act on a successful validation. The email-format check and the password hash check are
 * parameters (`isEmail`, `checkPassword`), as is the password hash function.
 */
module AuthForms {
  import opened Common
  import opened Models

  /** Python's `str.isspace` for one character. */
  predicate IsSpace(c: char)
  {
    ('\t' <= c <= '\r') || ('\U{1c}' <= c <= ' ') || c == '\U{85}' || c == '\U{a0}' || c == '\U{1680}'
    || ('\U{2000}' <= c <= '\U{200a}') || c == '\U{2028}' || c == '\U{2029}' || c == '\U{202f}'
    || c == '\U{205f}' || c == '\U{3000}'
  }

  /** `s.lstrip()`. */
  function StripLeft(s: string): (t: string)
    ensures |t| <= |s| && t == s[|s| - |t|..]
    ensures t == [] || !IsSpace(t[0])
    ensures forall i :: 0 <= i < |s| - |t| ==> IsSpace(s[i])
  {
    if |s| > 0 && IsSpace(s[0]) then StripLeft(s[1..]) else s
  }

  /** `s.rstrip()`. */
  function StripRight(s: string): (t: string)
    ensures |t| <= |s| && t == s[..|t|]
    ensures t == [] || !IsSpace(t[|t| - 1])
    ensures forall i :: |t| <= i < |s| ==> IsSpace(s[i])
  {
    if |s| > 0 && IsSpace(s[|s| - 1]) then StripRight(s[..|s| - 1]) else s
  }

  /** `s.strip()`. */
  function Strip(s: string): (t: string)
    ensures |t| <= |s|
    ensures t == [] || (!IsSpace(t[0]) && !IsSpace(t[|t| - 1]))
  {
    StripRight(StripLeft(s))
  }

  /** The bounds of the slice `strip` keeps: everything cut off on either side is white space. */
  lemma StripBounds(s: string) returns (i: nat, j: nat)
    ensures i <= j <= |s| && Strip(s) == s[i..j]
    ensures forall k :: 0 <= k < i || j <= k < |s| ==> IsSpace(s[k])
  {
    var l := StripLeft(s);
    var t := StripRight(l);
    i, j := |s| - |l|, |s| - |l| + |t|;
    assert t == s[i..j] by {
      assert l == s[i..];
      assert t == l[..|t|];
    }
    forall k | j <= k < |s| ensures IsSpace(s[k]) {
      assert s[k] == l[k - i];
    }
  }

  /**
   * The stripped string is a slice of `s` with only white space cut off on either side, and it
   * neither starts nor ends with white space; it is empty iff `s` is all white space.
   */
  lemma StripIsTrimmedSlice(s: string)
    ensures var t := Strip(s);
      (exists i, j :: 0 <= i <= j <= |s| && t == s[i..j]
                      && forall k :: 0 <= k < i || j <= k < |s| ==> IsSpace(s[k]))
      && (t == [] || (!IsSpace(t[0]) && !IsSpace(t[|t| - 1])))
      && (t == [] <==> forall i :: 0 <= i < |s| ==> IsSpace(s[i]))
  {
    var t := Strip(s);
    var i, j := StripBounds(s);
    if t != [] {
      assert s[i] == t[0];
    }
  }

  /** The wtforms validators the forms use; a `Length` bound of -1 means no bound. */
  datatype Validator =
    | DataRequired(message: string)
    | EmailFormat(message: string)
    | Length(min: int, max: int, message: string)
    | EqualTo(fieldName: string, message: string)

  const EmailValidators: seq<Validator> := [
    DataRequired("Email address is required."),
    EmailFormat("Please enter valid email address."),
    Length(-1, 255, "Email address too long.")
  ]

  const UsernameValidators: seq<Validator> := [
    DataRequired("Username is required."),
    Length(4, -1, "Username must be at least 4 characters long."),
    Length(-1, 255, "Username cannot be longer than 255 characters.")
  ]

  const PasswordValidators: seq<Validator> := [
    DataRequired("Password is required."),
    Length(8, -1, "Password must be at least 8 characters long.")
  ]

  const ConfirmValidators: seq<Validator> := [
    DataRequired("Confirmation is required."),
    Length(8, -1, "Confirmation must be at least 8 characters long."),
    EqualTo("password", "Passwords must match.")
  ]

  const EmailTaken := "Email address already taken."
  const UsernameTaken := "Username already taken."
  const LoginFailed := "Incorrect email or password."

  /**
   * A field's validation chain: a failing `DataRequired` clears the errors so far, records its
   * message and stops the chain; any other failing validator appends its message and goes on.
   * `otherData` is the data of the field an `EqualTo` names.
   */
  function RunChain(vs: seq<Validator>, data: string, otherData: string, isEmail: string -> bool,
                    errors: seq<string>): (r: seq<string>)
    ensures |r| <= |errors| + |vs|
    ensures Strip(data) != "" ==> errors <= r
    ensures forall m :: m in r ==> m in errors || exists k :: 0 <= k < |vs| && vs[k].message == m
    decreases |vs|
  {
    if |vs| == 0 then errors
    else
      match vs[0]
      case DataRequired(msg) =>
        if Strip(data) != "" then RunChain(vs[1..], data, otherData, isEmail, errors) else [msg]
      case EmailFormat(msg) =>
        RunChain(vs[1..], data, otherData, isEmail, if isEmail(data) then errors else errors + [msg])
      case Length(min, max, msg) =>
        var ok := |data| >= min && (max == -1 || |data| <= max);
        RunChain(vs[1..], data, otherData, isEmail, if ok then errors else errors + [msg])
      case EqualTo(_, msg) =>
        RunChain(vs[1..], data, otherData, isEmail, if data == otherData then errors else errors + [msg])
  }

  /** The errors of the email field: required, then format, then at most 255 characters. */
  function EmailErrors(email: string, isEmail: string -> bool): (errors: seq<string>)
    ensures Strip(email) == "" ==> errors == [EmailValidators[0].message]
    ensures Strip(email) != "" ==>
      errors == (if isEmail(email) then [] else [EmailValidators[1].message])
                + (if |email| <= 255 then [] else [EmailValidators[2].message])
    ensures errors == [] <==> Strip(email) != "" && isEmail(email) && |email| <= 255
  {
    assert EmailValidators[1..] == [EmailValidators[1], EmailValidators[2]];
    assert EmailValidators[1..][1..] == [EmailValidators[2]];
    RunChain(EmailValidators, email, "", isEmail, [])
  }

  /** The errors of the username field: required, then at least 4 and at most 255 characters. */
  function UsernameErrors(username: string): (errors: seq<string>)
    ensures Strip(username) == "" ==> errors == [UsernameValidators[0].message]
    ensures Strip(username) != "" ==>
      errors == (if |username| >= 4 then [] else [UsernameValidators[1].message])
                + (if |username| <= 255 then [] else [UsernameValidators[2].message])
    ensures errors == [] <==> Strip(username) != "" && 4 <= |username| <= 255
  {
    assert UsernameValidators[1..] == [UsernameValidators[1], UsernameValidators[2]];
    assert UsernameValidators[1..][1..] == [UsernameValidators[2]];
    RunChain(UsernameValidators, username, "", _ => true, [])
  }

  /** The errors of the password field: required, then at least 8 characters. */
  function PasswordErrors(password: string): (errors: seq<string>)
    ensures Strip(password) == "" ==> errors == [PasswordValidators[0].message]
    ensures Strip(password) != "" ==> errors == if |password| >= 8 then [] else [PasswordValidators[1].message]
    ensures errors == [] <==> Strip(password) != "" && |password| >= 8
  {
    assert PasswordValidators[1..] == [PasswordValidators[1]];
    RunChain(PasswordValidators, password, "", _ => true, [])
  }

  /** The errors of the confirmation field: required, at least 8 characters, equal to the password. */
  function ConfirmErrors(confirm: string, password: string): (errors: seq<string>)
    ensures Strip(confirm) == "" ==> errors == [ConfirmValidators[0].message]
    ensures Strip(confirm) != "" ==>
      errors == (if |confirm| >= 8 then [] else [ConfirmValidators[1].message])
                + (if confirm == password then [] else [ConfirmValidators[2].message])
    ensures errors == [] <==> Strip(confirm) != "" && |confirm| >= 8 && confirm == password
  {
    assert ConfirmValidators[1..] == [ConfirmValidators[1], ConfirmValidators[2]];
    assert ConfirmValidators[1..][1..] == [ConfirmValidators[2]];
    RunChain(ConfirmValidators, confirm, password, _ => true, [])
  }

  datatype LoginResult = LoginResult(ok: bool, emailErrors: seq<string>, passwordErrors: seq<string>)

  /**
   * `LoginForm.validate` over the user table: the field validators, then the user with that email
   * must exist and accept the password; otherwise both fields get the same message.
   */
  function LoginValidation(users: seq<User>, email: string, password: string, isEmail: string -> bool,
                           checkPassword: (string, string) -> bool): (out: LoginResult)
    ensures out.ok ==> out.emailErrors == [] && out.passwordErrors == []
    ensures EmailErrors(email, isEmail) != [] || PasswordErrors(password) != [] ==>
      !out.ok && out.emailErrors == EmailErrors(email, isEmail) && out.passwordErrors == PasswordErrors(password)
    ensures EmailErrors(email, isEmail) == [] && PasswordErrors(password) == [] && !out.ok ==>
      out.emailErrors == [LoginFailed] && out.passwordErrors == [LoginFailed]
    ensures (forall u :: u in users ==> u.email != email) ==> !out.ok
  {
    var emailErrors := EmailErrors(email, isEmail);
    var passwordErrors := PasswordErrors(password);
    if emailErrors != [] || passwordErrors != [] then LoginResult(false, emailErrors, passwordErrors)
    else
      var user := GetByEmail(users, email);
      if user.None? || !checkPassword(user.value.password, password) then LoginResult(false, [LoginFailed], [LoginFailed])
      else LoginResult(true, [], [])
  }

  /**
   * On a table with unique emails, a login is accepted iff the fields are valid and the user with
   * that email exists and accepts the password.
   */
  lemma LoginAcceptedIff(users: seq<User>, email: string, password: string, isEmail: string -> bool,
                         checkPassword: (string, string) -> bool)
    requires UniqueUsers(users)
    ensures LoginValidation(users, email, password, isEmail, checkPassword).ok
            <==> EmailErrors(email, isEmail) == [] && PasswordErrors(password) == []
                 && exists u :: u in users && u.email == email && checkPassword(u.password, password)
  {
    var user := GetByEmail(users, email);
    if user.Some? {
      assert forall u :: u in users && u.email == email ==> u == user.value;
    }
  }

  /** The steps `LoginForm.validate` takes, one early return at a time. */
  lemma LoginValidationSteps(users: seq<User>, email: string, password: string, isEmail: string -> bool,
                             checkPassword: (string, string) -> bool)
    ensures var v := LoginValidation(users, email, password, isEmail, checkPassword);
      var emailErrors, passwordErrors := EmailErrors(email, isEmail), PasswordErrors(password);
      var user := GetByEmail(users, email);
      if emailErrors != [] || passwordErrors != [] then v == LoginResult(false, emailErrors, passwordErrors)
      else if user.None? || !checkPassword(user.value.password, password) then
        v == LoginResult(false, [] + [LoginFailed], [] + [LoginFailed])
      else v == LoginResult(true, [], [])
  {
    if EmailErrors(email, isEmail) == [] && PasswordErrors(password) == [] {
      assert [] + [LoginFailed] == [LoginFailed];
    }
  }

  datatype RegisterResult = RegisterResult(
    ok: bool,
    emailErrors: seq<string>,
    usernameErrors: seq<string>,
    passwordErrors: seq<string>,
    confirmErrors: seq<string>)

  predicate RegisterFieldsValid(email: string, username: string, password: string, confirm: string,
                                isEmail: string -> bool)
  {
    EmailErrors(email, isEmail) == [] && UsernameErrors(username) == []
    && PasswordErrors(password) == [] && ConfirmErrors(confirm, password) == []
  }

  /**
   * `RegisterForm.validate` over the user table: the field validators, then the email and then the
   * username must be free; the first check that fails reports on its field and ends validation.
   */
  function RegisterValidation(users: seq<User>, email: string, username: string, password: string,
                              confirm: string, isEmail: string -> bool): (out: RegisterResult)
    ensures out.ok <==> RegisterFieldsValid(email, username, password, confirm, isEmail)
                        && forall u :: u in users ==> u.email != email && u.username != username
    ensures out.ok ==> out.emailErrors == out.usernameErrors == out.passwordErrors == out.confirmErrors == []
    ensures !RegisterFieldsValid(email, username, password, confirm, isEmail) ==>
      out == RegisterResult(false, EmailErrors(email, isEmail), UsernameErrors(username),
                            PasswordErrors(password), ConfirmErrors(confirm, password))
    ensures RegisterFieldsValid(email, username, password, confirm, isEmail) && !IsEmailAvailable(users, email) ==>
      out == RegisterResult(false, [EmailTaken], [], [], [])
    ensures RegisterFieldsValid(email, username, password, confirm, isEmail) && IsEmailAvailable(users, email)
            && !IsUsernameAvailable(users, username) ==>
      out == RegisterResult(false, [], [UsernameTaken], [], [])
  {
    var base := RegisterResult(false, EmailErrors(email, isEmail), UsernameErrors(username),
                               PasswordErrors(password), ConfirmErrors(confirm, password));
    if !RegisterFieldsValid(email, username, password, confirm, isEmail) then base
    else if !IsEmailAvailable(users, email) then base.(emailErrors := base.emailErrors + [EmailTaken])
    else if !IsUsernameAvailable(users, username) then base.(usernameErrors := base.usernameErrors + [UsernameTaken])
    else base.(ok := true)
  }

  /** Even when both are taken, only the email is reported: the username check is never reached. */
  lemma TakenEmailHidesTakenUsername(u: User, password: string, isEmail: string -> bool)
    requires RegisterFieldsValid(u.email, u.username, password, password, isEmail)
    ensures RegisterValidation([u], u.email, u.username, password, password, isEmail).usernameErrors == []
    ensures RegisterValidation([u], u.email, u.username, password, password, isEmail).emailErrors == [EmailTaken]
  {
    assert !IsEmailAvailable([u], u.email) by {
      assert u in [u];
    }
  }

  /**
   * The query of `ProfileForm.validate`: the first user, other than the one with `currentId`,
   * who has the submitted username or email.
   */
  function FirstConflict(users: seq<User>, currentId: int, username: string, email: string): (r: Option<User>)
    ensures r.None? <==> forall u :: u in users && u.id != currentId ==> u.username != username && u.email != email
    ensures r.Some? ==> r.value in users && r.value.id != currentId
                        && (r.value.username == username || r.value.email == email)
  {
    if |users| == 0 then None
    else if users[0].id != currentId && (users[0].username == username || users[0].email == email) then Some(users[0])
    else
      assert forall u :: u in users ==> u == users[0] || u in users[1..];
      FirstConflict(users[1..], currentId, username, email)
  }

  datatype ProfileResult = ProfileResult(ok: bool, emailErrors: seq<string>, usernameErrors: seq<string>)

  predicate ProfileFieldsValid(email: string, username: string, isEmail: string -> bool)
  {
    EmailErrors(email, isEmail) == [] && UsernameErrors(username) == []
  }

  /**
   * `ProfileForm.validate` as the source writes it: a conflicting user is reported on a field when
   * it shares that field with the signed-in user `current`, not with the submitted data.
   */
  function ProfileValidationAsWritten(users: seq<User>, current: Option<User>, email: string, username: string,
                                      isEmail: string -> bool): (out: ProfileResult)
    ensures out.ok == ProfileValidation(users, current, email, username, isEmail).ok
    ensures out.ok ==> out.emailErrors == [] && out.usernameErrors == []
    ensures !ProfileFieldsValid(email, username, isEmail) ==>
      out == ProfileResult(false, EmailErrors(email, isEmail), UsernameErrors(username))
  {
    var base := ProfileResult(false, EmailErrors(email, isEmail), UsernameErrors(username));
    if !ProfileFieldsValid(email, username, isEmail) then base
    else if current.None? then base
    else
      match FirstConflict(users, current.value.id, username, email)
      case Some(other) =>
        var emailErrors := if other.email == current.value.email then base.emailErrors + [EmailTaken] else base.emailErrors;
        var usernameErrors :=
          if other.username == current.value.username then base.usernameErrors + [UsernameTaken] else base.usernameErrors;
        ProfileResult(false, emailErrors, usernameErrors)
      case None => base.(ok := true)
  }

  /**
   * On a table that keeps its UNIQUE constraints and holds the signed-in user, the validation as
   * written rejects a conflicting profile without a single error message.
   */
  lemma ProfileConflictUnreportedAsWritten(users: seq<User>, current: User, email: string, username: string,
                                           isEmail: string -> bool)
    requires UniqueUsers(users) && current in users
    requires ProfileFieldsValid(email, username, isEmail)
    requires exists u :: u in users && u.id != current.id && (u.username == username || u.email == email)
    ensures var out := ProfileValidationAsWritten(users, Some(current), email, username, isEmail);
      !out.ok && out.emailErrors == [] && out.usernameErrors == []
  {
    var found := FirstConflict(users, current.id, username, email);
    var other := found.value;
    var i :| 0 <= i < |users| && users[i] == other;
    var j :| 0 <= j < |users| && users[j] == current;
    assert i != j;
    assert other.email != current.email && other.username != current.username;
  }

  /**
   * `ProfileForm.validate` as evidently intended: a conflicting user is reported on each field it
   * shares with the submitted data. An unauthenticated user is always rejected; the signed-in
   * user's own row never conflicts.
   */
  function ProfileValidation(users: seq<User>, current: Option<User>, email: string, username: string,
                             isEmail: string -> bool): (out: ProfileResult)
    ensures current.None? ==> !out.ok
    ensures out.ok <==> ProfileFieldsValid(email, username, isEmail) && current.Some?
                        && forall u :: u in users && u.id != current.value.id ==> u.username != username && u.email != email
    ensures out.ok ==> out.emailErrors == [] && out.usernameErrors == []
    ensures !ProfileFieldsValid(email, username, isEmail) ==>
      out == ProfileResult(false, EmailErrors(email, isEmail), UsernameErrors(username))
    ensures ProfileFieldsValid(email, username, isEmail) && current.Some? && !out.ok ==>
      out.emailErrors + out.usernameErrors != []
      && (out.emailErrors == [EmailTaken] || out.emailErrors == [])
      && (out.usernameErrors == [UsernameTaken] || out.usernameErrors == [])
  {
    var base := ProfileResult(false, EmailErrors(email, isEmail), UsernameErrors(username));
    if !ProfileFieldsValid(email, username, isEmail) then base
    else if current.None? then base
    else
      match FirstConflict(users, current.value.id, username, email)
      case Some(other) =>
        var emailErrors := if other.email == email then base.emailErrors + [EmailTaken] else base.emailErrors;
        var usernameErrors := if other.username == username then base.usernameErrors + [UsernameTaken] else base.usernameErrors;
        ProfileResult(false, emailErrors, usernameErrors)
      case None => base.(ok := true)
  }

  /** Validated profile data is never empty, so the update that follows always commits. */
  lemma {:induction false} AcceptedProfileCommits(users: seq<User>, current: Option<User>, email: string,
                                                  username: string, isEmail: string -> bool)
    requires ProfileValidation(users, current, email, username, isEmail).ok
    ensures UpdateCommits(Some(email), Some(username), None)
  {
    assert |username| >= 4;
  }

  class LoginForm {
    const email: string
    const password: string
    var emailErrors: seq<string>
    var passwordErrors: seq<string>

    constructor (email: string, password: string)
      ensures this.email == email && this.password == password
      ensures emailErrors == [] && passwordErrors == []
    {
      this.email := email;
      this.password := password;
      emailErrors := [];
      passwordErrors := [];
    }

    /** `LoginForm.validate`: runs the field validators, then checks the user and password. */
    method Validate(users: seq<User>, isEmail: string -> bool, checkPassword: (string, string) -> bool)
      returns (ok: bool)
      modifies this
      ensures LoginResult(ok, emailErrors, passwordErrors) == LoginValidation(users, email, password, isEmail, checkPassword)
    {
      LoginValidationSteps(users, email, password, isEmail, checkPassword);
      emailErrors := EmailErrors(email, isEmail);
      passwordErrors := PasswordErrors(password);
      if emailErrors != [] || passwordErrors != [] {
        return false;
      }
      var user := GetByEmail(users, email);
      if user.None? || !checkPassword(user.value.password, password) {
        emailErrors := emailErrors + [LoginFailed];
        passwordErrors := passwordErrors + [LoginFailed];
        return false;
      }
      return true;
    }
  }

  class RegisterForm {
    const email: string
    const username: string
    const password: string
    const confirm: string
    var emailErrors: seq<string>
    var usernameErrors: seq<string>
    var passwordErrors: seq<string>
    var confirmErrors: seq<string>

    constructor (email: string, username: string, password: string, confirm: string)
      ensures this.email == email && this.username == username
      ensures this.password == password && this.confirm == confirm
      ensures emailErrors == usernameErrors == passwordErrors == confirmErrors == []
    {
      this.email := email;
      this.username := username;
      this.password := password;
      this.confirm := confirm;
      emailErrors, usernameErrors, passwordErrors, confirmErrors := [], [], [], [];
    }

    function Result(ok: bool): RegisterResult
      reads this
    {
      RegisterResult(ok, emailErrors, usernameErrors, passwordErrors, confirmErrors)
    }

    /** `RegisterForm.validate`: the field validators, then email and username availability, with early returns. */
    method Validate(users: seq<User>, isEmail: string -> bool) returns (ok: bool)
      modifies this
      ensures Result(ok) == RegisterValidation(users, email, username, password, confirm, isEmail)
    {
      emailErrors := EmailErrors(email, isEmail);
      usernameErrors := UsernameErrors(username);
      passwordErrors := PasswordErrors(password);
      confirmErrors := ConfirmErrors(confirm, password);
      ghost var v := RegisterValidation(users, email, username, password, confirm, isEmail);
      if emailErrors != [] || usernameErrors != [] || passwordErrors != [] || confirmErrors != [] {
        assert !RegisterFieldsValid(email, username, password, confirm, isEmail);
        return false;
      }
      assert RegisterFieldsValid(email, username, password, confirm, isEmail);
      if !IsEmailAvailable(users, email) {
        emailErrors := emailErrors + [EmailTaken];
        assert v == RegisterResult(false, [EmailTaken], [], [], []);
        return false;
      }
      if !IsUsernameAvailable(users, username) {
        usernameErrors := usernameErrors + [UsernameTaken];
        assert v == RegisterResult(false, [], [UsernameTaken], [], []);
        return false;
      }
      assert v.ok;
      return true;
    }
  }

  class ProfileForm {
    const email: string
    const username: string
    var emailErrors: seq<string>
    var usernameErrors: seq<string>

    constructor (email: string, username: string)
      ensures this.email == email && this.username == username
      ensures emailErrors == [] && usernameErrors == []
    {
      this.email := email;
      this.username := username;
      emailErrors := [];
      usernameErrors := [];
    }

    /**
     * `ProfileForm.validate` as the source writes it: a conflicting user is reported on a field when
     * it shares that field with the signed-in user `current`.
     */
    method Validate(users: seq<User>, current: Option<User>, isEmail: string -> bool) returns (ok: bool)
      modifies this
      ensures ProfileResult(ok, emailErrors, usernameErrors)
              == ProfileValidationAsWritten(users, current, email, username, isEmail)
    {
      emailErrors := EmailErrors(email, isEmail);
      usernameErrors := UsernameErrors(username);
      if emailErrors != [] || usernameErrors != [] {
        return false;
      }
      if current.None? {
        return false;
      }
      var other := FirstConflict(users, current.value.id, username, email);
      if other.Some? {
        if other.value.email == current.value.email {
          emailErrors := emailErrors + [EmailTaken];
        }
        if other.value.username == current.value.username {
          usernameErrors := usernameErrors + [UsernameTaken];
        }
        return false;
      }
      return true;
    }
  }

  /**
   * The `register` route for a POSTed form: a signed-in visitor is turned away; otherwise a valid
   * form adds a user with the whitespace-stripped email, while availability was checked on the email
   * as typed. `None` stands also for the uncaught IntegrityError of a stripped email that is taken.
   */
  method Register(form: RegisterForm, db: Database, authenticated: bool, isEmail: string -> bool,
                  hash: string -> string) returns (created: Option<User>)
    requires db.Valid()
    modifies form, db`users, db`commits
    ensures db.Valid()
    ensures authenticated ==> created.None? && db.users == old(db.users) && db.commits == old(db.commits)
    ensures !authenticated ==>
      var v := RegisterValidation(old(db.users), form.email, form.username, form.password, form.confirm, isEmail);
      form.Result(v.ok) == v
      && (!v.ok ==> created.None? && db.users == old(db.users) && db.commits == old(db.commits))
      && (v.ok ==> (created.Some? <==> IsEmailAvailable(old(db.users), Strip(form.email))))
      && (v.ok ==> db.commits == old(db.commits) + 1)
      && (created.None? ==> db.users == old(db.users))
      && (created.Some? ==>
            created.value == User(NextUserId(old(db.users)), Strip(form.email), form.username, hash(form.password))
            && db.users == old(db.users) + [created.value])
  {
    if authenticated {
      return None;
    }
    var ok := form.Validate(db.users, isEmail);
    if ok {
      created := db.AddUser(Strip(form.email), form.username, form.password, hash);
    } else {
      created := None;
    }
  }

  /**
   * The `profile` route for a POSTed form by the signed-in user `current`, whose row is stored:
   * the form is validated as written against the user table, and a valid form updates the user's
   * email and username, an update that always commits and writes the row back. The decision is
   * the one of the corrected validation: no other user has the submitted email or username.
   */
  method Profile(form: ProfileForm, current: UserRecord, isEmail: string -> bool,
                 hash: string -> string, db: Database) returns (updated: bool)
    requires db.Valid() && current.Row() in db.users
    modifies form, current, db`users, db`commits
    ensures db.Valid()
    ensures var v := ProfileValidationAsWritten(old(db.users), Some(old(current.Row())), form.email, form.username, isEmail);
      updated == v.ok && ProfileResult(updated, form.emailErrors, form.usernameErrors) == v
    ensures updated == ProfileValidation(old(db.users), Some(old(current.Row())), form.email, form.username, isEmail).ok
    ensures ProfileFieldsValid(form.email, form.username, isEmail)
            && (exists u :: u in old(db.users) && u.id != old(current.Row()).id
                             && (u.username == form.username || u.email == form.email)) ==>
      !updated && form.emailErrors == [] && form.usernameErrors == []
    ensures updated ==>
      current.Row() == old(current.Row()).(email := form.email, username := form.username)
      && db.commits == old(db.commits) + 1
      && db.users == ReplaceRow(old(db.users), current.Row()) && current.Row() in db.users
      && !IsEmailAvailable(db.users, form.email) && !IsUsernameAvailable(db.users, form.username)
    ensures !updated ==> current.Row() == old(current.Row()) && db.users == old(db.users) && db.commits == old(db.commits)
  {
    updated := form.Validate(db.users, Some(current.Row()), isEmail);
    if ProfileFieldsValid(form.email, form.username, isEmail)
       && exists u :: u in db.users && u.id != current.Row().id && (u.username == form.username || u.email == form.email) {
      ProfileConflictUnreportedAsWritten(db.users, current.Row(), form.email, form.username, isEmail);
    }
    if updated {
      AcceptedProfileCommits(db.users, Some(old(current.Row())), form.email, form.username, isEmail);
      ghost var row := old(current.Row()).(email := form.email, username := form.username);
      assert KeepsUnique(db.users, row);
      ReplaceRowKeepsConstraints(db.users, row);
      current.Update(Some(form.email), Some(form.username), None, hash, db);
    }
  }
}
