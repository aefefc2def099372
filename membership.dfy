/** The Access membership provider: the password-format setting, the
    status codes and their messages, the lookup of a stored password, and
    CreateUser with its validation order and its transaction. The parameter
    validator, the password encoder and the salt generator are not part of
    this model; they are passed in. */
module MembershipProvider {
  import opened Common
  import opened AccessStore
  import opened ConnectionHelper
  import opened Connections
  import opened Identifiers
  import opened Transactions
  import PersonalizationProviderHelper

  /** MembershipPasswordFormat. */
  datatype PasswordFormat = Clear | Hashed | Encrypted

  /** The value stored in the PasswordFormat column. */
  function FormatCode(f: PasswordFormat): int
  {
    match f
    case Clear => 0
    case Hashed => 1
    case Encrypted => 2
  }

  /** The configuration spelling of a format. */
  function FormatName(f: PasswordFormat): string
  {
    match f
    case Clear => "Clear"
    case Hashed => "Hashed"
    case Encrypted => "Encrypted"
  }

  /** The passwordFormat setting read at initialisation: missing means
      "Hashed"; the three names select their format; anything else is
      refused; and a hashed format cannot go with password retrieval. */
  function ParsePasswordFormat(configured: Option<string>, enablePasswordRetrieval: bool)
    : (r: Result<PasswordFormat, Exception>)
  {
    var name := if configured.None? then "Hashed" else configured.value;
    var format :=
      if name == "Clear" then Some(Clear)
      else if name == "Encrypted" then Some(Encrypted)
      else if name == "Hashed" then Some(Hashed)
      else None;
    if format.None? then Err(ProviderException("Bad password format"))
    else if format.value == Hashed && enablePasswordRetrieval then
      Err(ProviderException("Provider cannot retrieve hashed password"))
    else Ok(format.value)
  }

  /** The setting is read back from a format's own name, a missing setting
      is "Hashed", an accepted setting is the name of the format chosen,
      and only the hashed format is refused, and only with retrieval on. */
  lemma PasswordFormatRoundTrip(f: PasswordFormat, configured: Option<string>, enablePasswordRetrieval: bool)
    ensures ParsePasswordFormat(Some(FormatName(f)), enablePasswordRetrieval)
            == if f == Hashed && enablePasswordRetrieval
               then Err(ProviderException("Provider cannot retrieve hashed password"))
               else Ok(f)
    ensures ParsePasswordFormat(None, enablePasswordRetrieval) == ParsePasswordFormat(Some("Hashed"), enablePasswordRetrieval)
    ensures ParsePasswordFormat(configured, enablePasswordRetrieval).Ok? ==>
              (if configured.None? then "Hashed" else configured.value)
              == FormatName(ParsePasswordFormat(configured, enablePasswordRetrieval).value)
    ensures configured.Some? && configured.value !in {"Clear", "Hashed", "Encrypted"} ==>
              ParsePasswordFormat(configured, enablePasswordRetrieval) == Err(ProviderException("Bad password format"))
  {
  }

  /** GetExceptionText: the message of a status code. */
  function GetExceptionText(status: int): string
  {
    match status
    case 0 => ""
    case 1 => "User not found"
    case 2 => "Wrong password"
    case 3 => "Wrong answer"
    case 4 => "Invalid password"
    case 5 => "Invalid question"
    case 6 => "Invalid answer"
    case 7 => "Invalid email"
    case _ => "Unknown provider error"
  }

  /** IsStatusDueToBadPassword. */
  predicate IsStatusDueToBadPassword(status: int)
  {
    2 <= status <= 6
  }

  /** The messages of the bad-password statuses. */
  const BadPasswordTexts: set<string> :=
    {"Wrong password", "Wrong answer", "Invalid password", "Invalid question", "Invalid answer"}

  /** Only success has no message; the statuses 1 to 7 have messages of
      their own; and a status is due to a bad password exactly when its
      message is one of the password, question and answer messages. */
  lemma {:induction false} ExceptionTextSpec(status: int, other: int)
    ensures GetExceptionText(status) == "" <==> status == 0
    ensures 0 <= status < other <= 7 ==> GetExceptionText(status) != GetExceptionText(other)
    ensures !(0 <= status <= 7) <==> GetExceptionText(status) == "Unknown provider error"
    ensures IsStatusDueToBadPassword(status) <==> GetExceptionText(status) in BadPasswordTexts
  {
    var t := GetExceptionText(status);
    if !(0 <= status <= 7) {
      assert t == "Unknown provider error";
      assert t[0] == 'U';
    } else {
      assert t != "Unknown provider error" by {
        assert |t| == 0 || t[0] != 'U' || |t| != 22;
      }
    }
    if !IsStatusDueToBadPassword(status) {
      assert t !in BadPasswordTexts by {
        assert t == "" || t == "User not found" || t == "Invalid email" || t == "Unknown provider error";
      }
    }
  }

  /** String.Compare(a, b, ignoreCase: true) == 0: both null, or equal up
      to case. */
  predicate SameAnswer(a: Option<string>, b: Option<string>)
  {
    (a.None? && b.None?) || (a.Some? && b.Some? && ToLower(a.value) == ToLower(b.value))
  }

  /** A membership row joined with its user row. */
  predicate HasMember(t: Tables, userId: int)
  {
    userId in t.membership && exists u :: u in t.users && t.users[u].id == userId
  }

  /** What GetPasswordWithFormat reports. */
  datatype PasswordLookup = PasswordLookup(
    password: Option<string>, status: int, passwordFormat: int, passwordSalt: string, isApproved: bool)

  /** GetPasswordWithFormat: status 1 and no password when the user id is
      0 or has no membership row; status 3 and no password when an answer
      is required and does not match, ignoring case; otherwise status 0 and
      the stored password. */
  function GetPasswordWithFormat(t: Tables, userId: int, passwordAnswer: Option<string>, requiresQuestionAndAnswer: bool)
    : (r: PasswordLookup)
  {
    if userId == 0 || !HasMember(t, userId) then PasswordLookup(None, 1, 0, "", false)
    else
      var m := t.membership[userId];
      if requiresQuestionAndAnswer && !SameAnswer(m.answer, passwordAnswer) then
        PasswordLookup(None, 3, m.passwordFormat, m.passwordSalt, m.isApproved)
      else PasswordLookup(Some(m.password), 0, m.passwordFormat, m.passwordSalt, m.isApproved)
  }

  /** The password is handed out exactly with status 0, and it is the stored
      one; the failing statuses are "User not found" and "Wrong answer",
      and only the wrong answer counts against the password. */
  lemma PasswordLookupSpec(t: Tables, userId: int, passwordAnswer: Option<string>, requiresQuestionAndAnswer: bool)
    ensures var r := GetPasswordWithFormat(t, userId, passwordAnswer, requiresQuestionAndAnswer);
            && r.status in {0, 1, 3}
            && (r.password.Some? <==> r.status == 0)
            && (r.status == 0 ==> HasMember(t, userId) && r.password.value == t.membership[userId].password)
            && (r.status == 1 <==> userId == 0 || !HasMember(t, userId))
            && (r.status == 3 ==> GetExceptionText(r.status) == "Wrong answer" && IsStatusDueToBadPassword(r.status))
            && (r.status == 1 ==> GetExceptionText(r.status) == "User not found" && !IsStatusDueToBadPassword(r.status))
            && (!requiresQuestionAndAnswer && userId != 0 && HasMember(t, userId) ==> r.status == 0)
  {
  }

  /** MembershipCreateStatus, the values CreateUser reports. */
  datatype CreateStatus =
    | Success | InvalidUserName | InvalidPassword | InvalidQuestion | InvalidAnswer | InvalidEmail
    | DuplicateUserName | DuplicateEmail | ProviderError

  /** The verdict of SecUtility.ValidateParameter: refused, or accepted
      with the value as it adjusted it (trimmed; null stays null). */
  datatype Validated = Rejected | Accepted(value: Option<string>)

  /** ValidateParameter(value, checkForNull, checkIfEmpty, checkForCommas,
      maxSize), not part of this model. */
  type ParameterValidator = (Option<string>, bool, bool, bool, int) -> Validated

  /** EncodePassword(password, format, salt), not part of this model. */
  type PasswordEncoder = (Option<string>, int, string) -> string

  /** The parameters of a new user after validation. */
  datatype NewUser = NewUser(
    userName: Option<string>, encodedPassword: string, email: Option<string>,
    question: Option<string>, answer: Option<string>)

  /** Why CreateUser stops before touching the store. */
  datatype Refusal = Refused(status: CreateStatus) | Thrown(exception: Exception)

  /** The longest encoded password the Password column holds. */
  const MaxEncodedPasswordLength: nat := 128

  /** The checks of CreateUser in the order it makes them, on the
      validator's verdicts and the encoded password. */
  function Decide(pw: Validated, encoded: string, un: Validated, em: Validated, qu: Validated, an: Validated,
                  userIdGiven: bool): Result<NewUser, Refusal>
  {
    if pw.Rejected? then Err(Refused(InvalidPassword))
    else if |encoded| > MaxEncodedPasswordLength then Err(Refused(InvalidPassword))
    else if un.Rejected? then Err(Refused(InvalidUserName))
    else if em.Rejected? then Err(Refused(InvalidEmail))
    else if qu.Rejected? then Err(Refused(InvalidQuestion))
    else if an.Rejected? then Err(Refused(InvalidAnswer))
    else if userIdGiven then
      Err(Thrown(ArgumentException(PersonalizationProviderHelper.ArgumentInvalid(
        "userId", "userId Parameter must be null for AccessProviders"))))
    else Ok(NewUser(un.value, encoded, em.value, qu.value, an.value))
  }

  /** CreateUser's checks: the password (not null, not empty), its encoded
      form (at most 128 characters), the user name (not null, not empty, no
      comma, at most 255), the e-mail address (required and non-empty only
      when it must be unique, at most 128), the question and the answer
      (required only when the provider requires them, at most 255 and
      128); then a given userId is refused. */
  function CreateUserChecks(
    validate: ParameterValidator, encode: PasswordEncoder, format: PasswordFormat, salt: string,
    userName: Option<string>, password: Option<string>, email: Option<string>,
    question: Option<string>, answer: Option<string>, userIdGiven: bool,
    requiresUniqueEmail: bool, requiresQuestionAndAnswer: bool)
    : (r: Result<NewUser, Refusal>)
  {
    var pw := validate(password, true, true, false, 0);
    Decide(pw,
           if pw.Accepted? then encode(pw.value, FormatCode(format), salt) else "",
           validate(userName, true, true, true, 255),
           validate(email, requiresUniqueEmail, requiresUniqueEmail, false, 128),
           validate(question, requiresQuestionAndAnswer, true, false, 255),
           validate(answer, requiresQuestionAndAnswer, true, false, 128),
           userIdGiven)
  }

  /** The outcomes of the six checks, in order. */
  function CheckOutcomes(pw: Validated, encoded: string, un: Validated, em: Validated, qu: Validated, an: Validated)
    : seq<bool>
  {
    [pw.Accepted?, pw.Accepted? && |encoded| <= MaxEncodedPasswordLength,
     un.Accepted?, em.Accepted?, qu.Accepted?, an.Accepted?]
  }

  /** The status each check reports when it is the first to fail. */
  const CheckStatuses: seq<CreateStatus> :=
    [InvalidPassword, InvalidPassword, InvalidUserName, InvalidEmail, InvalidQuestion, InvalidAnswer]

  /** The position of the first false outcome, or the length when none. */
  function FirstFailure(outcomes: seq<bool>): (k: nat)
    ensures k <= |outcomes|
    ensures forall i :: 0 <= i < k ==> outcomes[i]
    ensures k < |outcomes| ==> !outcomes[k]
  {
    if outcomes == [] || !outcomes[0] then 0 else 1 + FirstFailure(outcomes[1..])
  }

  /** CreateUser reports the status of the first failing check; only when
      all pass is a given userId refused; and only then does it go on. */
  lemma {:induction false} CreateUserReportsFirstFailure(
    pw: Validated, encoded: string, un: Validated, em: Validated, qu: Validated, an: Validated, userIdGiven: bool)
    ensures var k := FirstFailure(CheckOutcomes(pw, encoded, un, em, qu, an));
            var r := Decide(pw, encoded, un, em, qu, an, userIdGiven);
            && (k < 6 ==> r == Err(Refused(CheckStatuses[k])))
            && (k == 6 ==> (r.Err? <==> userIdGiven) && (r.Err? ==> r.error.Thrown?))
  {
    var outcomes := CheckOutcomes(pw, encoded, un, em, qu, an);
    var k := FirstFailure(outcomes);
    if pw.Rejected? {
      assert !outcomes[0];
      assert k == 0;
    } else if |encoded| > MaxEncodedPasswordLength {
      assert outcomes[0] && !outcomes[1];
      assert k == 1;
    } else if un.Rejected? {
      assert outcomes[0] && outcomes[1] && !outcomes[2];
      assert k == 2;
    } else if em.Rejected? {
      assert outcomes[0] && outcomes[1] && outcomes[2] && !outcomes[3];
      assert k == 3;
    } else if qu.Rejected? {
      assert outcomes[0] && outcomes[1] && outcomes[2] && outcomes[3] && !outcomes[4];
      assert k == 4;
    } else if an.Rejected? {
      assert outcomes[0] && outcomes[1] && outcomes[2] && outcomes[3] && outcomes[4] && !outcomes[5];
      assert k == 5;
    } else {
      assert k == 6;
    }
  }

  /** Some member of the application already has this e-mail address (a
      null address matches nothing). */
  predicate EmailTaken(t: Tables, appId: int, email: Option<string>)
  {
    email.Some? &&
    exists u :: u in t.users && u.0 == appId && t.users[u].id in t.membership
                && t.membership[t.users[u].id].email == email
  }

  /** The tables once CreateUser's statements have resolved the
      application (created if missing) and found or created the user. */
  function WithNewUser(t: Tables, appName: string, userName: string, now: nat): Tables
  {
    var withApp := AddApplication(t, appName);
    AddUser(withApp, ApplicationIdIn(withApp, appName), userName, false, RoundToSeconds(now))
  }

  /** The status CreateUser's statements end with, from the tables at BEGIN:
      a provider error when no user id can be had (a null or empty name),
      a duplicate user name when the user found already has a membership
      row, a duplicate e-mail when addresses must be unique and another
      member of the application has this one, and success otherwise. */
  function StoreStatus(t: Tables, appName: string, userName: Option<string>, email: Option<string>,
                       requiresUniqueEmail: bool, now: nat): (status: CreateStatus)
    ensures status in {Success, ProviderError, DuplicateUserName, DuplicateEmail}
  {
    if userName.None? || userName.value == [] then ProviderError
    else
      var withUser := WithNewUser(t, appName, userName.value, now);
      var appId := ApplicationIdIn(AddApplication(t, appName), appName);
      if UserIdIn(withUser, appId, userName.value) in withUser.membership then DuplicateUserName
      else if requiresUniqueEmail && EmailTaken(withUser, appId, email) then DuplicateEmail
      else Success
  }

  /** A user who already has a membership row in the application is a
      duplicate however the other arguments stand, and a user name that is
      new to the application succeeds unless its address is taken. */
  lemma {:induction false} StoreStatusSpec(t: Tables, appName: string, userName: string, email: Option<string>,
                                           requiresUniqueEmail: bool, now: nat)
    requires ValidTables(t) && userName != []
    ensures var appId := ApplicationIdIn(AddApplication(t, appName), appName);
            (appId, userName) in t.users && t.users[(appId, userName)].id in t.membership ==>
              StoreStatus(t, appName, Some(userName), email, requiresUniqueEmail, now) == DuplicateUserName
    ensures var appId := ApplicationIdIn(AddApplication(t, appName), appName);
            (appId, userName) !in t.users && t.nextId !in t.membership && appName in t.applications ==>
              (StoreStatus(t, appName, Some(userName), email, requiresUniqueEmail, now) == Success
               <==> !(requiresUniqueEmail && EmailTaken(t, appId, email)))
  {
    var withApp := AddApplication(t, appName);
    var appId := ApplicationIdIn(withApp, appName);
    var withUser := WithNewUser(t, appName, userName, now);
    if (appId, userName) in t.users && t.users[(appId, userName)].id in t.membership {
      assert (appId, userName) in withApp.users;
      assert withUser == withApp;
    }
    if (appId, userName) !in t.users && t.nextId !in t.membership && appName in t.applications {
      assert withApp == t;
      assert UserIdIn(withUser, appId, userName) == t.nextId;
      assert EmailTaken(withUser, appId, email) == EmailTaken(t, appId, email) by {
        if EmailTaken(withUser, appId, email) {
          var u :| u in withUser.users && u.0 == appId && withUser.users[u].id in withUser.membership
                   && withUser.membership[withUser.users[u].id].email == email;
          assert u != (appId, userName);
          assert u in t.users && t.users[u] == withUser.users[u];
        }
        if EmailTaken(t, appId, email) {
          var u :| u in t.users && u.0 == appId && t.users[u].id in t.membership
                   && t.membership[t.users[u].id].email == email;
          assert u in withUser.users && t.users[u] == withUser.users[u];
        }
      }
    }
  }

  /** What CreateUser returns: the status and the new user's id (0 unless
      the status is Success). */
  datatype Created = Created(status: CreateStatus, userId: int)

  /** The store after a successful CreateUser: the membership row is new;
      the user row, found or created under the resolved application,
      carries the member's id and the stamped activity time; the only
      application that may appear is the configured one; no other
      application, path, role or table changes, and every other user's
      row is kept. */
  ghost predicate MemberAdded(t: Tables, r: Tables, appName: string, appId: int, uid: int, userName: string,
                              member: MemberRow, dt: int)
  {
    && uid >= 1
    && uid !in t.membership
    && r.membership == t.membership[uid := member]
    && (appId, userName) in r.users
    && r.users[(appId, userName)].id == uid && r.users[(appId, userName)].lastActivity == dt
    && r.users.Keys == t.users.Keys + {(appId, userName)}
    && (forall k :: k in t.users && t.users[k].id != uid ==> r.users[k] == t.users[k])
    && (forall a :: a in t.applications ==> a in r.applications && r.applications[a] == t.applications[a])
    && r.applications.Keys <= t.applications.Keys + {appName}
    && r.paths == t.paths && r.roles == t.roles
    && r.usersInRoles == t.usersInRoles && r.profiles == t.profiles
    && r.sharedBlobs == t.sharedBlobs && r.userBlobs == t.userBlobs
  }

  /** The statements of a successful CreateUser, from the tables with the
      application resolved to the stamped membership row, give MemberAdded. */
  lemma {:induction false} MemberAddedByStatements(t: Tables, withApp: Tables, appName: string, appId: int,
                                                   uid: int, userName: string, member: MemberRow, dt0: int, dt: int)
    requires withApp == t || withApp == AddApplication(t, appName)
    requires uid >= 1 && uid !in t.membership
    requires var withUser := AddUser(withApp, appId, userName, false, dt0);
             (appId, userName) in withUser.users && withUser.users[(appId, userName)].id == uid
    ensures var withUser := AddUser(withApp, appId, userName, false, dt0);
            MemberAdded(t, TouchUser(withUser.(membership := withUser.membership[uid := member]), uid, dt),
                        appName, appId, uid, userName, member, dt)
  {
    var withUser := AddUser(withApp, appId, userName, false, dt0);
    var m := withUser.(membership := withUser.membership[uid := member]);
    var r := TouchUser(m, uid, dt);
    AddUserKeeps(withApp, appId, userName, dt0);
    TouchUserKeeps(m, uid, dt);
    ApplicationsGrowBy(t, withApp, appName);
    assert r.users.Keys == t.users.Keys + {(appId, userName)};
    assert forall k :: k in t.users && t.users[k].id != uid ==> r.users[k] == t.users[k];
    assert r.applications == withApp.applications;
  }

  /** Resolving the application keeps every application and adds at most
      the configured one, and keeps every other table. */
  lemma ApplicationsGrowBy(t: Tables, withApp: Tables, appName: string)
    requires withApp == t || withApp == AddApplication(t, appName)
    ensures forall a :: a in t.applications ==> a in withApp.applications && withApp.applications[a] == t.applications[a]
    ensures withApp.applications.Keys <= t.applications.Keys + {appName}
    ensures withApp.(applications := t.applications, nextId := t.nextId) == t
  {
  }

  /** INSERT INTO aspnet_Users adds at most its own key and keeps every
      other table. */
  lemma AddUserKeeps(t: Tables, appId: int, userName: string, dt: int)
    ensures var r := AddUser(t, appId, userName, false, dt);
            && r.users.Keys == t.users.Keys + {(appId, userName)}
            && (forall k :: k in t.users ==> r.users[k] == t.users[k])
            && r.applications == t.applications && r.paths == t.paths && r.roles == t.roles
            && r.membership == t.membership && r.usersInRoles == t.usersInRoles && r.profiles == t.profiles
            && r.sharedBlobs == t.sharedBlobs && r.userBlobs == t.userBlobs
  {
    if (appId, userName) !in t.users {
      var r := AddUser(t, appId, userName, false, dt);
      assert r.users == t.users[(appId, userName) := UserRow(t.nextId, false, dt)];
    }
  }

  /** The activity UPDATE stamps the rows with its id and keeps the rest. */
  lemma TouchUserKeeps(t: Tables, uid: int, dt: int)
    ensures var r := TouchUser(t, uid, dt);
            && r.users.Keys == t.users.Keys
            && (forall k :: k in t.users && t.users[k].id != uid ==> r.users[k] == t.users[k])
            && (forall k :: k in t.users && t.users[k].id == uid ==> r.users[k] == t.users[k].(lastActivity := dt))
            && r.(users := t.users) == t
  {
  }

  class AccessMembershipProvider {
    const db: Database
    const connections: ConnectionCache
    const idCache: ApplicationIdCache
    const databaseFileName: string
    const passwordFormat: PasswordFormat
    const requiresUniqueEmail: bool
    const requiresQuestionAndAnswer: bool

    ghost predicate Valid()
      reads this, db, connections, connections.Holders()
    {
      Quiet(db, connections)
    }

    constructor (db: Database, connections: ConnectionCache, idCache: ApplicationIdCache, databaseFileName: string,
                 passwordFormat: PasswordFormat, requiresUniqueEmail: bool, requiresQuestionAndAnswer: bool)
      ensures this.db == db && this.connections == connections && this.idCache == idCache
      ensures this.databaseFileName == databaseFileName && this.passwordFormat == passwordFormat
      ensures this.requiresUniqueEmail == requiresUniqueEmail
      ensures this.requiresQuestionAndAnswer == requiresQuestionAndAnswer
    {
      this.db := db;
      this.connections := connections;
      this.idCache := idCache;
      this.databaseFileName := databaseFileName;
      this.passwordFormat := passwordFormat;
      this.requiresUniqueEmail := requiresUniqueEmail;
      this.requiresQuestionAndAnswer := requiresQuestionAndAnswer;
    }

    /** The statements of CreateUser between BEGIN and COMMIT: resolve the
        application, find or create the user, refuse a user that already
        has a membership row or (when e-mail must be unique) an address
        already taken, insert the membership row and stamp the activity. */
    method AddMember(holderCreateDate: int, user: NewUser, isApproved: bool, salt: string, now: nat)
      returns (status: CreateStatus, uid: int)
      requires db.Valid()
      modifies db, idCache
      ensures db.Valid() && db.snapshot == old(db.snapshot)
      ensures status in {Success, ProviderError, DuplicateUserName, DuplicateEmail}
      ensures status == ProviderError <==> user.userName.None? || user.userName.value == []
      ensures old(idCache.Consistent(db.tables)) ==>
                status == StoreStatus(old(db.tables), Truncated(old(idCache.EffectiveName())), user.userName,
                                      user.email, requiresUniqueEmail, now)
      ensures status == Success ==>
                user.userName.Some? &&
                exists appId :: MemberAdded(old(db.tables), db.tables, Truncated(old(idCache.EffectiveName())), appId, uid,
                                            user.userName.value,
                                            MemberRow(user.email, user.encodedPassword, FormatCode(passwordFormat), salt,
                                                      user.question, user.answer, isApproved, RoundToSeconds(now)),
                                            RoundToSeconds(now))
      ensures status == Success && old(idCache.Consistent(db.tables)) ==>
                var name := Truncated(old(idCache.EffectiveName()));
                MemberAdded(old(db.tables), db.tables, name, ApplicationIdIn(db.tables, name), uid, user.userName.value,
                            MemberRow(user.email, user.encodedPassword, FormatCode(passwordFormat), salt,
                                      user.question, user.answer, isApproved, RoundToSeconds(now)),
                            RoundToSeconds(now))
    {
      ghost var t0 := db.tables;
      ghost var name := Truncated(idCache.EffectiveName());
      var appId;
      ghost var withApp;
      appId, uid, withApp := ResolveUser(holderCreateDate, user.userName, now);
      if uid == 0 {
        return ProviderError, uid;
      }
      if uid in db.tables.membership {
        return DuplicateUserName, uid;
      }
      if requiresUniqueEmail && EmailTaken(db.tables, appId, user.email) {
        return DuplicateEmail, uid;
      }
      var dt := RoundToSeconds(now);
      var member := MemberRow(user.email, user.encodedPassword, FormatCode(passwordFormat), salt,
                              user.question, user.answer, isApproved, dt);
      InsertMember(uid, appId, user.userName.value, member, dt);
      MemberAddedByStatements(t0, withApp, name, appId, uid, user.userName.value, member, dt, dt);
      return Success, uid;
    }

    /** The first two steps of CreateUser's statements: the application's
        id, then the user's, found or created. */
    method ResolveUser(holderCreateDate: int, userName: Option<string>, now: nat)
      returns (appId: int, uid: int, ghost withApp: Tables)
      requires db.Valid()
      modifies db, idCache
      ensures db.Valid() && db.snapshot == old(db.snapshot)
      ensures idCache.EffectiveName() == old(idCache.EffectiveName())
      ensures appId != 0
      ensures withApp == old(db.tables) || withApp == AddApplication(old(db.tables), Truncated(idCache.EffectiveName()))
      ensures db.tables == if userName.None? || userName.value == [] then withApp
                           else AddUser(withApp, appId, userName.value, false, RoundToSeconds(now))
      ensures uid == 0 <==> userName.None? || userName.value == []
      ensures uid != 0 ==> uid >= 1 && (appId, userName.value) in db.tables.users
                           && db.tables.users[(appId, userName.value)].id == uid
      ensures && db.tables.membership == old(db.tables).membership
              && db.tables.usersInRoles == old(db.tables).usersInRoles && db.tables.profiles == old(db.tables).profiles
              && db.tables.sharedBlobs == old(db.tables).sharedBlobs && db.tables.userBlobs == old(db.tables).userBlobs
      ensures old(idCache.Consistent(db.tables)) ==>
                var name := Truncated(idCache.EffectiveName());
                && appId == ApplicationIdIn(AddApplication(old(db.tables), name), name)
                && (uid != 0 ==> db.tables == WithNewUser(old(db.tables), name, userName.value, now))
    {
      var appResult := idCache.GetApplicationId(db, holderCreateDate, now);
      if appResult.Err? {
        assert false;
      }
      appId := appResult.value;
      withApp := db.tables;
      uid := GetUserID(db, appId, userName, true, false, now);
      if uid != 0 {
        AddUserKeeps(withApp, appId, userName.value, RoundToSeconds(now));
      }
    }

    /** BEGIN TRANSACTION, the statements, and COMMIT on success only; on
        any other status the transaction is left for the finally block. */
    method Transact(holderCreateDate: int, user: NewUser, isApproved: bool, salt: string, now: nat)
      returns (status: CreateStatus, uid: int)
      requires db.Valid() && db.snapshot.None?
      modifies db, idCache
      ensures db.Valid()
      ensures db.snapshot == if status == Success then None else Some(old(db.tables))
      ensures status == ProviderError <==> user.userName.None? || user.userName.value == []
      ensures old(idCache.Consistent(db.tables)) ==>
                status == StoreStatus(old(db.tables), Truncated(old(idCache.EffectiveName())), user.userName,
                                      user.email, requiresUniqueEmail, now)
      ensures status == Success ==>
                user.userName.Some? &&
                exists appId :: MemberAdded(old(db.tables), db.tables, Truncated(old(idCache.EffectiveName())), appId, uid,
                                            user.userName.value,
                                            MemberRow(user.email, user.encodedPassword, FormatCode(passwordFormat), salt,
                                                      user.question, user.answer, isApproved, RoundToSeconds(now)),
                                            RoundToSeconds(now))
      ensures status == Success && old(idCache.Consistent(db.tables)) ==>
                var name := Truncated(old(idCache.EffectiveName()));
                MemberAdded(old(db.tables), db.tables, name, ApplicationIdIn(db.tables, name), uid, user.userName.value,
                            MemberRow(user.email, user.encodedPassword, FormatCode(passwordFormat), salt,
                                      user.question, user.answer, isApproved, RoundToSeconds(now)),
                            RoundToSeconds(now))
    {
      db.Begin();
      status, uid := AddMember(holderCreateDate, user, isApproved, salt, now);
      if status == Success {
        db.Commit();
      }
    }

    /** The last two statements of CreateUser: insert the membership row of
        a user found under the given name and stamp its activity time. */
    method InsertMember(uid: int, appId: int, userName: string, member: MemberRow, dt: int)
      requires db.Valid()
      requires uid >= 1 && uid !in db.tables.membership
      requires (appId, userName) in db.tables.users && db.tables.users[(appId, userName)].id == uid
      modifies db
      ensures db.Valid() && db.snapshot == old(db.snapshot)
      ensures db.tables == TouchUser(old(db.tables).(membership := old(db.tables).membership[uid := member]), uid, dt)
      ensures db.tables.users[(appId, userName)].id == uid && db.tables.users[(appId, userName)].lastActivity == dt
    {
      var inserted := db.Execute(InsertMembership(uid, member));
      if inserted != 1 {
        assert false;
      }
      var touched := db.Execute(UpdateUserActivity(uid, dt));
      assert db.tables.users[(appId, userName)].id == uid && db.tables.users[(appId, userName)].lastActivity == dt;
    }

    /** CreateUser: the checks in order, then the statements inside one
        transaction; any status but Success leaves the store as it was, the
        user row created on the way included, and the holder is closed on
        every path. */
    method CreateUser(
      userName: Option<string>, password: Option<string>, email: Option<string>,
      passwordQuestion: Option<string>, passwordAnswer: Option<string>, isApproved: bool, userIdGiven: bool,
      validate: ParameterValidator, encode: PasswordEncoder, salt: string,
      env: Environment, now: nat, openSucceeds: bool)
      returns (r: Result<Created, Exception>)
      requires Valid()
      modifies db, idCache, connections, connections.Holders()
      ensures Valid()
      ensures var checks := CreateUserChecks(validate, encode, passwordFormat, salt, userName, password, email,
                                             passwordQuestion, passwordAnswer, userIdGiven,
                                             requiresUniqueEmail, requiresQuestionAndAnswer);
              && (checks.Err? && checks.error.Refused? ==> r == Ok(Created(checks.error.status, 0)))
              && (checks.Err? && checks.error.Thrown? ==> r == Err(checks.error.exception))
              && (checks.Ok? && r.Ok? && old(idCache.Consistent(db.tables)) ==>
                    r.value.status == StoreStatus(old(db.tables), Truncated(old(idCache.EffectiveName())),
                                                  checks.value.userName, checks.value.email, requiresUniqueEmail, now))
              && (checks.Ok? && r.Err? ==> r.error == OleDbException || r.error.PlainException?)
              && (r.Ok? && r.value.status == Success ==>
                    checks.Ok? && checks.value.userName.Some? &&
                    exists appId :: MemberAdded(old(db.tables), db.tables, Truncated(old(idCache.EffectiveName())), appId,
                                                r.value.userId, checks.value.userName.value,
                                                MemberRow(checks.value.email, checks.value.encodedPassword,
                                                          FormatCode(passwordFormat), salt, checks.value.question,
                                                          checks.value.answer, isApproved, RoundToSeconds(now)),
                                                RoundToSeconds(now)))
              && (r.Ok? && r.value.status == Success && old(idCache.Consistent(db.tables)) ==>
                    var name := Truncated(old(idCache.EffectiveName()));
                    checks.Ok? && checks.value.userName.Some? &&
                    MemberAdded(old(db.tables), db.tables, name, ApplicationIdIn(db.tables, name),
                                r.value.userId, checks.value.userName.value,
                                MemberRow(checks.value.email, checks.value.encodedPassword, FormatCode(passwordFormat),
                                          salt, checks.value.question, checks.value.answer, isApproved,
                                          RoundToSeconds(now)),
                                RoundToSeconds(now)))
      ensures r.Err? || r.value.status != Success ==> db.tables == old(db.tables)
      ensures r.Ok? && r.value.status != Success ==> r.value.userId == 0
    {
      var checks := CreateUserChecks(validate, encode, passwordFormat, salt, userName, password, email,
                                     passwordQuestion, passwordAnswer, userIdGiven,
                                     requiresUniqueEmail, requiresQuestionAndAnswer);
      if checks.Err? {
        if checks.error.Refused? {
          return Ok(Created(checks.error.status, 0));
        }
        return Err(checks.error.exception);
      }
      r := Store(checks.value, isApproved, salt, env, now, openSucceeds);
    }

    /** The part of CreateUser after the checks: take a holder, BEGIN, run
        the statements, COMMIT only on success, and release. */
    method Store(user: NewUser, isApproved: bool, salt: string, env: Environment, now: nat, openSucceeds: bool)
      returns (r: Result<Created, Exception>)
      requires Valid()
      modifies db, idCache, connections, connections.Holders()
      ensures Valid()
      ensures r.Err? ==> r.error == OleDbException || r.error.PlainException?
      ensures r.Ok? ==> (r.value.status == ProviderError <==> user.userName.None? || user.userName.value == [])
      ensures r.Ok? && old(idCache.Consistent(db.tables)) ==>
                r.value.status == StoreStatus(old(db.tables), Truncated(old(idCache.EffectiveName())), user.userName,
                                              user.email, requiresUniqueEmail, now)
      ensures r.Ok? && r.value.status == Success ==>
                user.userName.Some? &&
                exists appId :: MemberAdded(old(db.tables), db.tables, Truncated(old(idCache.EffectiveName())), appId,
                                            r.value.userId, user.userName.value,
                                            MemberRow(user.email, user.encodedPassword, FormatCode(passwordFormat), salt,
                                                      user.question, user.answer, isApproved, RoundToSeconds(now)),
                                            RoundToSeconds(now))
      ensures r.Ok? && r.value.status == Success && old(idCache.Consistent(db.tables)) ==>
                var name := Truncated(old(idCache.EffectiveName()));
                MemberAdded(old(db.tables), db.tables, name, ApplicationIdIn(db.tables, name),
                            r.value.userId, user.userName.value,
                            MemberRow(user.email, user.encodedPassword, FormatCode(passwordFormat), salt,
                                      user.question, user.answer, isApproved, RoundToSeconds(now)),
                            RoundToSeconds(now))
      ensures r.Err? || r.value.status != Success ==> db.tables == old(db.tables)
      ensures r.Ok? && r.value.status != Success ==> r.value.userId == 0
    {
      var connection := Acquire(db, connections, databaseFileName, env, now, openSucceeds);
      if connection.Err? {
        return Err(connection.error);
      }
      var holder := connection.value;
      var status, uid := Transact(holder.createDate, user, isApproved, salt, now);
      Release(db, connections, holder);
      if status != Success {
        return Ok(Created(status, 0));
      }
      return Ok(Created(Success, uid));
    }
  }
}
