/** The accounts side of login.php: registration into the users table and
    login into the session. `password_hash`, `password_verify` and the
    `FILTER_VALIDATE_EMAIL` check are library calls, passed in as functions. */
module Auth {

  import opened Php
  import opened Checks
  import opened Ordering

  /** The `role` column; registration leaves it at its default, `user`. */
  datatype Role = Admin | Coach | User

  datatype UserRow = UserRow(username: string, email: string, passwordHash: string, fullName: string, role: Role)

  /** The five `$_SESSION` entries a successful login writes. */
  datatype LoginSession = LoginSession(userId: int, username: string, fullName: string, role: Role, loggedIn: bool)

  const UsernameRequired := "Username is required"
  const EmailRequired := "Email is required"
  const PasswordRequired := "Password is required"
  const FullNameRequired := "Full name is required"
  const EmailInvalid := "Invalid email format"
  const PasswordTooShort := "Password must be at least 6 characters"
  const PasswordMismatch := "Passwords do not match"
  const AlreadyExists := "Username or email already exists"
  const Registered := "Registration successful! You can now login."
  const InvalidCredentials := "Invalid username or password"

  /** The registration messages in the order they are checked. */
  const RegistrationMessages: seq<string> :=
    [UsernameRequired, EmailRequired, PasswordRequired, FullNameRequired,
     EmailInvalid, PasswordTooShort, PasswordMismatch, AlreadyExists]

  /** The `UNIQUE` constraints on `username` and `email`. */
  predicate UniqueAccounts(users: map<int, UserRow>)
  {
    forall i, j :: i in users && j in users && i != j ==>
      users[i].username != users[j].username && users[i].email != users[j].email
  }

  /** `SELECT id FROM users WHERE username = ? OR email = ?` finds a row. */
  predicate Taken(users: map<int, UserRow>, username: string, email: string)
  {
    exists id :: id in users && (users[id].username == username || users[id].email == email)
  }

  /** The registration checks on the trimmed username, email and full name
      and the untrimmed passwords; none of them short-circuits. */
  function RegistrationChecks(username: string, email: string, password: string, confirmPassword: string,
                              fullName: string, validEmail: bool, taken: bool): seq<Check>
  {
    [ Check(Empty(username), UsernameRequired),
      Check(Empty(email), EmailRequired),
      Check(Empty(password), PasswordRequired),
      Check(Empty(fullName), FullNameRequired),
      Check(!validEmail, EmailInvalid),
      Check(|password| < 6, PasswordTooShort),
      Check(password != confirmPassword, PasswordMismatch),
      Check(taken, AlreadyExists) ]
  }

  /** The errors of the registration branch for the submitted form. */
  function RegistrationErrors(users: map<int, UserRow>, isEmail: string -> bool,
                              username: string, email: string, password: string, confirmPassword: string,
                              fullName: string): seq<string>
  {
    var u, e, f := Trim(username), Trim(email), Trim(fullName);
    Failures(RegistrationChecks(u, e, password, confirmPassword, f, isEmail(e), Taken(users, u, e)))
  }

  lemma RegistrationMessagesDistinct()
    ensures Distinct(RegistrationMessages)
  {
  }

  /** Each registration check's message is reported exactly when that check fails. */
  lemma RegistrationChecksReported(username: string, email: string, password: string, confirmPassword: string,
                                   fullName: string, validEmail: bool, taken: bool)
    ensures var errs := Failures(RegistrationChecks(username, email, password, confirmPassword, fullName, validEmail, taken));
      (UsernameRequired in errs <==> Empty(username))
      && (EmailRequired in errs <==> Empty(email))
      && (PasswordRequired in errs <==> Empty(password))
      && (FullNameRequired in errs <==> Empty(fullName))
      && (EmailInvalid in errs <==> !validEmail)
      && (PasswordTooShort in errs <==> |password| < 6)
      && (PasswordMismatch in errs <==> password != confirmPassword)
      && (AlreadyExists in errs <==> taken)
  {
    var cs := RegistrationChecks(username, email, password, confirmPassword, fullName, validEmail, taken);
    assert Messages(cs) == RegistrationMessages;
    RegistrationMessagesDistinct();
    FailedMessage(cs, 0); FailedMessage(cs, 1); FailedMessage(cs, 2); FailedMessage(cs, 3);
    FailedMessage(cs, 4); FailedMessage(cs, 5); FailedMessage(cs, 6); FailedMessage(cs, 7);
  }

  /** The reported messages keep the fixed check order, and there are none
      exactly when all eight checks pass. */
  lemma RegistrationChecksOrder(username: string, email: string, password: string, confirmPassword: string,
                                fullName: string, validEmail: bool, taken: bool)
    ensures var errs := Failures(RegistrationChecks(username, email, password, confirmPassword, fullName, validEmail, taken));
      IsSubsequence(errs, RegistrationMessages)
      && (errs == [] <==>
            !Empty(username) && !Empty(email) && !Empty(password) && !Empty(fullName)
            && validEmail && |password| >= 6 && password == confirmPassword && !taken)
  {
    var cs := RegistrationChecks(username, email, password, confirmPassword, fullName, validEmail, taken);
    assert Messages(cs) == RegistrationMessages;
    FailuresSpec(cs);
    RegistrationChecksReported(username, email, password, confirmPassword, fullName, validEmail, taken);
    var errs := Failures(cs);
    if errs != [] {
      SubsequenceMembers(errs, RegistrationMessages);
      assert errs[0] in RegistrationMessages;
    }
  }

  /** The registration errors for the submitted form: the checks above on
      the trimmed username, email and full name and the untrimmed passwords. */
  lemma RegistrationErrorsSpec(users: map<int, UserRow>, isEmail: string -> bool,
                               username: string, email: string, password: string, confirmPassword: string,
                               fullName: string)
    ensures var errs := RegistrationErrors(users, isEmail, username, email, password, confirmPassword, fullName);
      (UsernameRequired in errs <==> Empty(Trim(username)))
      && (EmailRequired in errs <==> Empty(Trim(email)))
      && (PasswordRequired in errs <==> Empty(password))
      && (FullNameRequired in errs <==> Empty(Trim(fullName)))
      && (EmailInvalid in errs <==> !isEmail(Trim(email)))
      && (PasswordTooShort in errs <==> |password| < 6)
      && (PasswordMismatch in errs <==> password != confirmPassword)
      && (AlreadyExists in errs <==> Taken(users, Trim(username), Trim(email)))
      && IsSubsequence(errs, RegistrationMessages)
      && (errs == [] <==>
            !Empty(Trim(username)) && !Empty(Trim(email)) && !Empty(password) && !Empty(Trim(fullName))
            && isEmail(Trim(email)) && |password| >= 6 && password == confirmPassword
            && !Taken(users, Trim(username), Trim(email)))
  {
    var u, e, f := Trim(username), Trim(email), Trim(fullName);
    RegistrationChecksReported(u, e, password, confirmPassword, f, isEmail(e), Taken(users, u, e));
    RegistrationChecksOrder(u, e, password, confirmPassword, f, isEmail(e), Taken(users, u, e));
  }

  /** An email that is blank after trimming is reported twice, as missing and
      as malformed, whenever the validator rejects the empty string. */
  lemma BlankEmailReportedTwice(users: map<int, UserRow>, isEmail: string -> bool,
                                username: string, email: string, password: string, confirmPassword: string,
                                fullName: string)
    requires Trim(email) == "" && !isEmail("")
    ensures EmailRequired in RegistrationErrors(users, isEmail, username, email, password, confirmPassword, fullName)
    ensures EmailInvalid in RegistrationErrors(users, isEmail, username, email, password, confirmPassword, fullName)
  {
    RegistrationErrorsSpec(users, isEmail, username, email, password, confirmPassword, fullName);
  }

  /** The row registration inserts: trimmed fields, the hash of the password
      (never the password itself) and the default role. */
  function NewUser(hash: string -> string, username: string, email: string, password: string,
                   fullName: string): UserRow
  {
    UserRow(Trim(username), Trim(email), hash(password), Trim(fullName), User)
  }

  /** Registering keeps usernames and emails unique. */
  lemma RegistrationKeepsAccountsUnique(users: map<int, UserRow>, isEmail: string -> bool, hash: string -> string,
                                        id: int, username: string, email: string, password: string,
                                        confirmPassword: string, fullName: string)
    requires UniqueAccounts(users) && id !in users
    requires RegistrationErrors(users, isEmail, username, email, password, confirmPassword, fullName) == []
    ensures UniqueAccounts(users[id := NewUser(hash, username, email, password, fullName)])
  {
    RegistrationErrorsSpec(users, isEmail, username, email, password, confirmPassword, fullName);
    var after := users[id := NewUser(hash, username, email, password, fullName)];
    forall i, j | i in after && j in after && i != j
      ensures after[i].username != after[j].username && after[i].email != after[j].email
    {
      if i == id {
        assert j in users;
      } else if j == id {
        assert i in users;
      }
    }
  }

  /** Inserting under the AUTO_INCREMENT counter and then advancing it keeps
      every id below the counter. */
  lemma IdsBelowAfterInsert(users: map<int, UserRow>, next: int, row: UserRow, after: map<int, UserRow>)
    requires forall id :: id in users ==> 1 <= id < next
    requires 1 <= next && after == users[next := row]
    ensures forall id :: id in after ==> 1 <= id < next + 1
    ensures next !in users
  {
  }

  // ------------------------------------------------------------------ login

  /** What the login branch decides: the id of the user to log in, or the errors. */
  datatype LoginOutcome = Granted(userId: int) | Denied(errors: seq<string>)

  function LoginChecks(username: string, password: string): seq<Check>
  {
    [Check(Empty(username), UsernameRequired), Check(Empty(password), PasswordRequired)]
  }

  /** The login form's errors: a missing username, then a missing password. */
  lemma LoginChecksErrors(username: string, password: string)
    ensures Failures(LoginChecks(username, password)) ==
      (if Empty(username) then [UsernameRequired] else []) + (if Empty(password) then [PasswordRequired] else [])
  {
    var cs := LoginChecks(username, password);
    assert Failures(cs) == (if cs[0].failed then [cs[0].message] else []) + Failures(cs[1..]);
    assert Failures(cs[1..]) == (if cs[1].failed then [cs[1].message] else []) + Failures(cs[2..]);
  }

  /** `SELECT * FROM users WHERE username = ?` then `fetch()`: the first
      matching row, in id order. */
  function FindUser(users: map<int, UserRow>, username: string): (found: Option<int>)
    ensures found.Some? ==> found.value in users && users[found.value].username == username
    ensures found.None? ==> forall id :: id in users ==> users[id].username != username
  {
    var rows := Select(SortedIds(users.Keys), id => if id in users && users[id].username == username then Some(users[id]) else None);
    if rows == [] then
      assert forall id :: id in users ==> users[id].username != username by {
        forall id | id in users ensures users[id].username != username {
          assert (id, users[id]) !in rows;
        }
      }
      None
    else
      assert rows[0] in rows;
      Some(rows[0].0)
  }

  /** With unique usernames the lookup finds the one user of that name. */
  lemma FindUniqueUser(users: map<int, UserRow>, username: string, id: int)
    requires UniqueAccounts(users) && id in users && users[id].username == username
    ensures FindUser(users, username) == Some(id)
  {
    var found := FindUser(users, username);
    assert found.Some? && found.value in users && users[found.value].username == users[id].username;
  }

  /** The login branch: the trimmed username and the untrimmed password must
      both be given (no lookup otherwise); then the user must exist and the
      password verify against the stored hash. */
  function LoginResult(users: map<int, UserRow>, verify: (string, string) -> bool,
                       username: string, password: string): LoginOutcome
  {
    var errors := Failures(LoginChecks(Trim(username), password));
    if errors != [] then Denied(errors)
    else match FindUser(users, Trim(username))
      case Some(id) => if verify(password, users[id].passwordHash) then Granted(id) else Denied([InvalidCredentials])
      case None => Denied([InvalidCredentials])
  }

  /** With unique usernames, login succeeds exactly when both fields are
      given and the named user's stored hash verifies the password; the
      user logged in is that one. An unknown user and a wrong password get
      the same single message. */
  lemma LoginSpec(users: map<int, UserRow>, verify: (string, string) -> bool, username: string, password: string)
    requires UniqueAccounts(users)
    ensures LoginResult(users, verify, username, password).Granted? <==>
      !Empty(Trim(username)) && !Empty(password)
      && exists id :: id in users && users[id].username == Trim(username) && verify(password, users[id].passwordHash)
    ensures LoginResult(users, verify, username, password).Granted? ==>
      var id := LoginResult(users, verify, username, password).userId;
      id in users && users[id].username == Trim(username)
    ensures !Empty(Trim(username)) && !Empty(password) && !LoginResult(users, verify, username, password).Granted? ==>
      LoginResult(users, verify, username, password) == Denied([InvalidCredentials])
    ensures Empty(Trim(username)) || Empty(password) ==>
      LoginResult(users, verify, username, password) == Denied(
        (if Empty(Trim(username)) then [UsernameRequired] else []) + (if Empty(password) then [PasswordRequired] else []))
  {
    LoginChecksErrors(Trim(username), password);
    if LoginResult(users, verify, username, password).Granted? {
    } else if !Empty(Trim(username)) && !Empty(password) {
      var found := FindUser(users, Trim(username));
      if found.Some? {
        forall id | id in users && users[id].username == Trim(username)
          ensures !verify(password, users[id].passwordHash)
        {
          assert id == found.value;
        }
      }
    }
  }

  /** A freshly registered user can log in with the same username and
      password, provided the library's verify accepts its own hash. */
  lemma RegisterThenLogin(users: map<int, UserRow>, isEmail: string -> bool, hash: string -> string,
                          verify: (string, string) -> bool, id: int,
                          username: string, email: string, password: string, confirmPassword: string,
                          fullName: string)
    requires UniqueAccounts(users) && id !in users
    requires RegistrationErrors(users, isEmail, username, email, password, confirmPassword, fullName) == []
    requires verify(password, hash(password))
    ensures LoginResult(users[id := NewUser(hash, username, email, password, fullName)], verify, username, password)
         == Granted(id)
  {
    var after := users[id := NewUser(hash, username, email, password, fullName)];
    var u, e, f := Trim(username), Trim(email), Trim(fullName);
    RegistrationChecksOrder(u, e, password, confirmPassword, f, isEmail(e), Taken(users, u, e));
    RegistrationKeepsAccountsUnique(users, isEmail, hash, id, username, email, password, confirmPassword, fullName);
    LoginChecksErrors(u, password);
    FindUniqueUser(after, u, id);
    LoginGranted(after, verify, username, password, id);
  }

  /** Login grants the user the lookup finds once the form is complete and
      the password verifies against that user's hash. */
  lemma LoginGranted(users: map<int, UserRow>, verify: (string, string) -> bool,
                     username: string, password: string, id: int)
    requires Failures(LoginChecks(Trim(username), password)) == []
    requires FindUser(users, Trim(username)) == Some(id) && verify(password, users[id].passwordHash)
    ensures LoginResult(users, verify, username, password) == Granted(id)
  {
  }

  // ---------------------------------------------------------------- accounts

  /** The users table, its AUTO_INCREMENT counter and the login session. */
  class Accounts {
    var users: map<int, UserRow>
    var nextUserId: int
    var session: Option<LoginSession>

    ghost predicate Valid()
      reads this
    {
      UniqueAccounts(users) && 1 <= nextUserId && forall id :: id in users ==> 1 <= id < nextUserId
    }

    constructor ()
      ensures Valid() && users == map[] && nextUserId == 1 && session == None
    {
      users, nextUserId, session := map[], 1, None;
    }

    /** The registration branch: trim, run the eight checks, and insert the
        new user only when none fails. */
    method Register(isEmail: string -> bool, hash: string -> string,
                    username: string, email: string, password: string, confirmPassword: string, fullName: string)
      returns (outcome: Outcome)
      requires Valid()
      modifies this
      ensures Valid()
      ensures outcome.Failed? <==>
        RegistrationErrors(old(users), isEmail, username, email, password, confirmPassword, fullName) != []
      ensures outcome.Failed? ==>
        outcome.errors == RegistrationErrors(old(users), isEmail, username, email, password, confirmPassword, fullName)
        && unchanged(this)
      ensures outcome.Succeeded? ==>
        outcome == Succeeded(Registered, None)
        && old(nextUserId) !in old(users)
        && users == old(users)[old(nextUserId) := NewUser(hash, username, email, password, fullName)]
        && nextUserId == old(nextUserId) + 1 && session == old(session)
    {
      var errors := ValidateRegistration(users, isEmail, username, email, password, confirmPassword, fullName);
      if errors != [] {
        return Failed(errors);
      }
      RegistrationKeepsAccountsUnique(users, isEmail, hash, nextUserId, username, email, password, confirmPassword, fullName);
      InsertUser(NewUser(hash, username, email, password, fullName));
      outcome := Succeeded(Registered, None);
    }

    /** `INSERT INTO users`: the row goes in under the AUTO_INCREMENT counter,
        which then advances; the caller has made sure it clashes with no one. */
    method InsertUser(row: UserRow)
      requires Valid() && UniqueAccounts(users[nextUserId := row])
      modifies this
      ensures Valid()
      ensures old(nextUserId) !in old(users)
      ensures users == old(users)[old(nextUserId) := row]
      ensures nextUserId == old(nextUserId) + 1 && session == old(session)
    {
      var after := users[nextUserId := row];
      IdsBelowAfterInsert(users, nextUserId, row, after);
      users, nextUserId := after, nextUserId + 1;
    }

    /** Trims the username, email and full name, looks up whether either is
        taken, and runs the registration checks on the result. */
    static method ValidateRegistration(users: map<int, UserRow>, isEmail: string -> bool,
                                       username: string, email: string, password: string, confirmPassword: string,
                                       fullName: string) returns (errors: seq<string>)
      ensures errors == RegistrationErrors(users, isEmail, username, email, password, confirmPassword, fullName)
    {
      var u, e, f := Trim(username), Trim(email), Trim(fullName);
      var taken := exists id | id in users :: users[id].username == u || users[id].email == e;
      assert taken == Taken(users, u, e);
      errors := CheckRegistration(u, e, password, confirmPassword, f, isEmail(e), taken);
    }

    /** The eight registration checks, appending one message per failed
        check; none short-circuits. */
    static method CheckRegistration(username: string, email: string, password: string, confirmPassword: string,
                                    fullName: string, validEmail: bool, taken: bool) returns (errors: seq<string>)
      ensures errors == Failures(RegistrationChecks(username, email, password, confirmPassword, fullName, validEmail, taken))
      ensures errors == [] <==>
        !Empty(username) && !Empty(email) && !Empty(password) && !Empty(fullName)
        && validEmail && |password| >= 6 && password == confirmPassword && !taken
    {
      ghost var cs := RegistrationChecks(username, email, password, confirmPassword, fullName, validEmail, taken);
      ghost var done: seq<Check>;
      errors, done := Report([], [], Check(Empty(username), UsernameRequired));
      errors, done := Report(errors, done, Check(Empty(email), EmailRequired));
      errors, done := Report(errors, done, Check(Empty(password), PasswordRequired));
      errors, done := Report(errors, done, Check(Empty(fullName), FullNameRequired));
      errors, done := Report(errors, done, Check(!validEmail, EmailInvalid));
      errors, done := Report(errors, done, Check(|password| < 6, PasswordTooShort));
      errors, done := Report(errors, done, Check(password != confirmPassword, PasswordMismatch));
      errors, done := Report(errors, done, Check(taken, AlreadyExists));
      assert done == cs;
      FailuresSpec(cs);
    }

    /** The login branch: on success the session records the user's id,
        username, full name and role and that it is logged in; on failure
        the session is left as it was. */
    method Login(verify: (string, string) -> bool, username: string, password: string)
      returns (outcome: LoginOutcome)
      requires Valid()
      modifies this
      ensures Valid()
      ensures outcome == LoginResult(users, verify, username, password)
      ensures users == old(users) && nextUserId == old(nextUserId)
      ensures outcome.Granted? ==>
        outcome.userId in users
        && session == Some(LoginSession(outcome.userId, users[outcome.userId].username,
                                        users[outcome.userId].fullName, users[outcome.userId].role, true))
      ensures outcome.Denied? ==> session == old(session)
    {
      var u := Trim(username);
      ghost var cs := LoginChecks(u, password);
      ghost var done: seq<Check>;
      var errors: seq<string>;
      errors, done := Report([], [], Check(Empty(u), UsernameRequired));
      errors, done := Report(errors, done, Check(Empty(password), PasswordRequired));
      assert done == cs;
      if errors != [] {
        return Denied(errors);
      }
      var found := FindUser(users, u);
      if found.Some? && verify(password, users[found.value].passwordHash) {
        var user := users[found.value];
        session := Some(LoginSession(found.value, user.username, user.fullName, user.role, true));
        return Granted(found.value);
      }
      outcome := Denied([InvalidCredentials]);
    }
  }
}
