/** The Access database file as the providers see it: each aspnet_* table
    becomes a map keyed by the columns the providers look rows up by, every
    generated id (AutoNumber) is drawn from one counter, and a statement's
    effect is a new set of tables plus the number of rows it affected (the
    value ExecuteNonQuery returns). An insert whose key is already present
    affects no row, as a unique index would refuse it. Transactions keep a
    snapshot of the tables taken at BEGIN TRANSACTION. */
module AccessStore {
  import opened Common

  /** aspnet_Users: the surrogate id, the anonymity flag and the last
      activity time (DateTime ticks). */
  datatype UserRow = UserRow(id: int, isAnonymous: bool, lastActivity: int)

  /** aspnet_Membership, keyed by the user id. */
  datatype MemberRow = MemberRow(
    email: Option<string>,
    password: string,
    passwordFormat: int,
    passwordSalt: string,
    question: Option<string>,
    answer: Option<string>,
    isApproved: bool,
    createDate: int)

  /** aspnet_Profile, keyed by the user id. */
  datatype ProfileRow = ProfileRow(names: string, values: string, lastUpdated: int)

  /** A personalization blob: the Base64 page settings and the update time. */
  datatype Blob = Blob(settings: string, lastUpdated: int)

  datatype Tables = Tables(
    applications: map<string, int>,         // ApplicationName -> ApplicationId
    paths: map<(int, string), int>,         // (ApplicationId, Path) -> PathId
    users: map<(int, string), UserRow>,     // (ApplicationId, UserName) -> user
    roles: map<(int, string), int>,         // (ApplicationId, RoleName) -> RoleId
    usersInRoles: set<(int, int)>,          // (UserId, RoleId)
    membership: map<int, MemberRow>,        // UserId -> membership row
    profiles: map<int, ProfileRow>,         // UserId -> profile row
    sharedBlobs: map<int, Blob>,            // PathId -> shared page settings
    userBlobs: map<(int, int), Blob>,       // (PathId, UserId) -> per-user page settings
    nextId: int)                            // the next AutoNumber value

  /** A database with no rows. */
  const EmptyTables: Tables := Tables(map[], map[], map[], map[], {}, map[], map[], map[], map[], 1)

  /** Every generated id is positive and below the counter, so the next
      generated id is new and no lookup ever yields 0 for a present row. */
  predicate ValidTables(t: Tables)
  {
    && t.nextId >= 1
    && (forall a :: a in t.applications ==> 1 <= t.applications[a] < t.nextId)
    && (forall p :: p in t.paths ==> 1 <= t.paths[p] < t.nextId)
    && (forall u :: u in t.users ==> 1 <= t.users[u].id < t.nextId)
    && (forall r :: r in t.roles ==> 1 <= t.roles[r] < t.nextId)
  }

  /** The SQL statements the providers issue, with their parameters. */
  datatype Statement =
    | InsertApplication(name: string)
    | InsertPath(appId: int, path: string)
    | InsertUser(appId: int, userName: string, isAnonymous: bool, lastActivity: int)
    | UpdateUserActivity(userId: int, lastActivity: int)
    | InsertMembership(userId: int, member: MemberRow)
    | InsertRole(appId: int, roleName: string)
    | DeleteRole(roleId: int)
    | InsertUserInRole(userId: int, roleId: int)
    | DeleteUserInRole(userId: int, roleId: int)
    | InsertProfile(userId: int, profile: ProfileRow)
    | UpdateProfile(userId: int, profile: ProfileRow)
    | UpdateSharedBlob(pathId: int, blob: Blob)
    | InsertSharedBlob(pathId: int, blob: Blob)
    | UpdateUserBlob(pathId: int, userId: int, blob: Blob)
    | InsertUserBlob(pathId: int, userId: int, blob: Blob)
    | DeleteAllSharedBlobs
    | DeleteAllUserBlobs
    | DeleteSharedBlobsAt(pathId: int)
    | DeleteUserBlobsAt(pathId: int)
    | DeleteUserBlobsOf(userId: int, pathFilter: Option<int>)
    | DeleteInactiveUserBlobs(appId: int, inactiveSince: int, pathName: Option<string>)

  /** The map without the given keys. */
  function Without<K, V>(m: map<K, V>, gone: set<K>): (r: map<K, V>)
    ensures r.Keys == m.Keys - gone
    ensures forall k :: k in r ==> r[k] == m[k]
  {
    m - gone
  }

  /** The per-user blobs stored for one path. */
  function UserBlobsAt(t: Tables, pathId: int): set<(int, int)>
  {
    set k | k in t.userBlobs && k.0 == pathId
  }

  /** The per-user blobs of one user, optionally only those for one path. */
  function UserBlobsOf(t: Tables, userId: int, pathFilter: Option<int>): set<(int, int)>
  {
    set k | k in t.userBlobs && k.1 == userId && (pathFilter.None? || k.0 == pathFilter.value)
  }

  /** The path id belongs to the application (and, with a filter, is that
      path). */
  predicate PathOfApplication(t: Tables, pathId: int, appId: int, pathFilter: Option<string>)
  {
    exists p :: p in t.paths && t.paths[p] == pathId && p.0 == appId && (pathFilter.None? || p.1 == pathFilter.value)
  }

  /** Some user with this id was last active no later than the given time. */
  predicate InactiveSince(t: Tables, userId: int, inactiveSince: int)
  {
    exists u :: u in t.users && t.users[u].id == userId && t.users[u].lastActivity <= inactiveSince
  }

  /** The per-user blobs on the application's pages (optionally one page)
      whose user has been inactive since the given time. */
  function InactiveUserBlobs(t: Tables, appId: int, inactiveSince: int, pathFilter: Option<string>): set<(int, int)>
  {
    set k | k in t.userBlobs && PathOfApplication(t, k.0, appId, pathFilter) && InactiveSince(t, k.1, inactiveSince)
  }

  /** The rows a statement touches, as ExecuteNonQuery counts them. */
  function Affected(t: Tables, s: Statement): nat
  {
    match s
    case InsertApplication(name) => if name in t.applications then 0 else 1
    case InsertPath(appId, path) => if (appId, path) in t.paths then 0 else 1
    case InsertUser(appId, userName, _, _) => if (appId, userName) in t.users then 0 else 1
    case UpdateUserActivity(userId, _) => |set u | u in t.users && t.users[u].id == userId|
    case InsertMembership(userId, _) => if userId in t.membership then 0 else 1
    case InsertRole(appId, roleName) => if (appId, roleName) in t.roles then 0 else 1
    case DeleteRole(roleId) => |set r | r in t.roles && t.roles[r] == roleId|
    case InsertUserInRole(userId, roleId) => if (userId, roleId) in t.usersInRoles then 0 else 1
    case DeleteUserInRole(userId, roleId) => if (userId, roleId) in t.usersInRoles then 1 else 0
    case InsertProfile(userId, _) => if userId in t.profiles then 0 else 1
    case UpdateProfile(userId, _) => if userId in t.profiles then 1 else 0
    case UpdateSharedBlob(pathId, _) => if pathId in t.sharedBlobs then 1 else 0
    case InsertSharedBlob(pathId, _) => if pathId in t.sharedBlobs then 0 else 1
    case UpdateUserBlob(pathId, userId, _) => if (pathId, userId) in t.userBlobs then 1 else 0
    case InsertUserBlob(pathId, userId, _) => if (pathId, userId) in t.userBlobs then 0 else 1
    case DeleteAllSharedBlobs => |t.sharedBlobs.Keys|
    case DeleteAllUserBlobs => |t.userBlobs.Keys|
    case DeleteSharedBlobsAt(pathId) => if pathId in t.sharedBlobs then 1 else 0
    case DeleteUserBlobsAt(pathId) => |UserBlobsAt(t, pathId)|
    case DeleteUserBlobsOf(userId, pathFilter) => |UserBlobsOf(t, userId, pathFilter)|
    case DeleteInactiveUserBlobs(appId, since, pathFilter) => |InactiveUserBlobs(t, appId, since, pathFilter)|
  }

  /** INSERT INTO aspnet_Applications: the name gets the next id. */
  function AddApplication(t: Tables, name: string): Tables
  {
    if name in t.applications then t
    else t.(applications := t.applications[name := t.nextId], nextId := t.nextId + 1)
  }

  /** INSERT INTO aspnet_Paths. */
  function AddPath(t: Tables, appId: int, path: string): Tables
  {
    if (appId, path) in t.paths then t
    else t.(paths := t.paths[(appId, path) := t.nextId], nextId := t.nextId + 1)
  }

  /** INSERT INTO aspnet_Users. */
  function AddUser(t: Tables, appId: int, userName: string, isAnonymous: bool, lastActivity: int): Tables
  {
    if (appId, userName) in t.users then t
    else t.(users := t.users[(appId, userName) := UserRow(t.nextId, isAnonymous, lastActivity)], nextId := t.nextId + 1)
  }

  /** UPDATE aspnet_Users SET LastActivityDate ... WHERE UserId = id. */
  function TouchUser(t: Tables, userId: int, lastActivity: int): Tables
  {
    t.(users := map u | u in t.users :: if t.users[u].id == userId then t.users[u].(lastActivity := lastActivity) else t.users[u])
  }

  /** INSERT INTO aspnet_Roles. */
  function AddRole(t: Tables, appId: int, roleName: string): Tables
  {
    if (appId, roleName) in t.roles then t
    else t.(roles := t.roles[(appId, roleName) := t.nextId], nextId := t.nextId + 1)
  }

  /** DELETE FROM aspnet_Roles WHERE RoleId = id. The database file's own
      relationships (cascading deletes) are not part of this model. */
  function RemoveRole(t: Tables, roleId: int): Tables
  {
    t.(roles := Without(t.roles, set r | r in t.roles && t.roles[r] == roleId))
  }

  /** aspnet_UsersInRoles after a statement. */
  function UsersInRolesAfter(pairs: set<(int, int)>, s: Statement): set<(int, int)>
  {
    match s
    case InsertUserInRole(userId, roleId) => pairs + {(userId, roleId)}
    case DeleteUserInRole(userId, roleId) => pairs - {(userId, roleId)}
    case _ => pairs
  }

  /** aspnet_Membership after a statement. */
  function MembershipAfter(rows: map<int, MemberRow>, s: Statement): map<int, MemberRow>
  {
    match s
    case InsertMembership(userId, member) => if userId in rows then rows else rows[userId := member]
    case _ => rows
  }

  /** aspnet_Profile after a statement. */
  function ProfilesAfter(rows: map<int, ProfileRow>, s: Statement): map<int, ProfileRow>
  {
    match s
    case InsertProfile(userId, profile) => if userId in rows then rows else rows[userId := profile]
    case UpdateProfile(userId, profile) => if userId in rows then rows[userId := profile] else rows
    case _ => rows
  }

  /** aspnet_PagePersonalizationAllUsers after a statement. */
  function SharedBlobsAfter(rows: map<int, Blob>, s: Statement): map<int, Blob>
  {
    match s
    case UpdateSharedBlob(pathId, blob) => if pathId in rows then rows[pathId := blob] else rows
    case InsertSharedBlob(pathId, blob) => if pathId in rows then rows else rows[pathId := blob]
    case DeleteAllSharedBlobs => map[]
    case DeleteSharedBlobsAt(pathId) => if pathId in rows then Without(rows, {pathId}) else rows
    case _ => rows
  }

  /** aspnet_PagePersonalizationPerUser after a statement. */
  function UserBlobsAfter(t: Tables, s: Statement): map<(int, int), Blob>
  {
    match s
    case UpdateUserBlob(pathId, userId, blob) =>
      if (pathId, userId) in t.userBlobs then t.userBlobs[(pathId, userId) := blob] else t.userBlobs
    case InsertUserBlob(pathId, userId, blob) =>
      if (pathId, userId) in t.userBlobs then t.userBlobs else t.userBlobs[(pathId, userId) := blob]
    case DeleteAllUserBlobs => map[]
    case DeleteUserBlobsAt(pathId) => Without(t.userBlobs, UserBlobsAt(t, pathId))
    case DeleteUserBlobsOf(userId, pathFilter) => Without(t.userBlobs, UserBlobsOf(t, userId, pathFilter))
    case DeleteInactiveUserBlobs(appId, since, pathName) => Without(t.userBlobs, InactiveUserBlobs(t, appId, since, pathName))
    case _ => t.userBlobs
  }

  /** The statements that touch a table whose rows carry generated ids. */
  predicate TouchesIds(s: Statement)
  {
    s.InsertApplication? || s.InsertPath? || s.InsertUser? || s.UpdateUserActivity? || s.InsertRole? || s.DeleteRole?
  }

  /** The tables after a statement: a statement on an id-carrying table
      changes that table (and the counter), any other statement changes the
      one data table it names. */
  function Apply(t: Tables, s: Statement): Tables
  {
    match s
    case InsertApplication(name) => AddApplication(t, name)
    case InsertPath(appId, path) => AddPath(t, appId, path)
    case InsertUser(appId, userName, isAnonymous, lastActivity) => AddUser(t, appId, userName, isAnonymous, lastActivity)
    case UpdateUserActivity(userId, lastActivity) => TouchUser(t, userId, lastActivity)
    case InsertRole(appId, roleName) => AddRole(t, appId, roleName)
    case DeleteRole(roleId) => RemoveRole(t, roleId)
    case _ =>
      t.(usersInRoles := UsersInRolesAfter(t.usersInRoles, s),
         membership := MembershipAfter(t.membership, s),
         profiles := ProfilesAfter(t.profiles, s),
         sharedBlobs := SharedBlobsAfter(t.sharedBlobs, s),
         userBlobs := UserBlobsAfter(t, s))
  }

  /** The UPDATE of a user's LastActivityDate. */
  lemma ActivityUpdate(t: Tables, userId: int, lastActivity: int)
    ensures Apply(t, UpdateUserActivity(userId, lastActivity)) == TouchUser(t, userId, lastActivity)
  {
  }

  /** Two tables with the same id-carrying rows are valid together. */
  predicate SameIds(t: Tables, r: Tables)
  {
    r.applications == t.applications && r.paths == t.paths && r.users == t.users
    && r.roles == t.roles && r.nextId == t.nextId
  }

  /** Every statement keeps the tables valid and never moves the id
      counter back. */
  lemma ApplyPreservesValid(t: Tables, s: Statement)
    requires ValidTables(t)
    ensures ValidTables(Apply(t, s))
    ensures Apply(t, s).nextId >= t.nextId
  {
    if !TouchesIds(s) {
      KeepsIds(t, s);
    } else {
      match s
      case InsertApplication(name) => AddApplicationValid(t, name);
      case InsertPath(appId, path) => AddPathValid(t, appId, path);
      case InsertUser(appId, userName, isAnonymous, lastActivity) => AddUserValid(t, appId, userName, isAnonymous, lastActivity);
      case InsertRole(appId, roleName) => AddRoleValid(t, appId, roleName);
      case UpdateUserActivity(userId, lastActivity) => TouchUserValid(t, userId, lastActivity);
      case DeleteRole(roleId) => RemoveRoleValid(t, roleId);
    }
  }

  /** INSERT INTO aspnet_Paths touches no other table. */
  lemma AddPathParts(t: Tables, appId: int, path: string)
    ensures var r := AddPath(t, appId, path);
            && r.applications == t.applications && r.users == t.users
            && r.sharedBlobs == t.sharedBlobs && r.userBlobs == t.userBlobs
  {
  }

  /** INSERT INTO aspnet_Users touches no other table. */
  lemma AddUserParts(t: Tables, appId: int, userName: string, isAnonymous: bool, lastActivity: int)
    ensures var r := AddUser(t, appId, userName, isAnonymous, lastActivity);
            && r.applications == t.applications && r.paths == t.paths
            && r.sharedBlobs == t.sharedBlobs && r.userBlobs == t.userBlobs
  {
  }

  lemma AddApplicationValid(t: Tables, name: string)
    requires ValidTables(t)
    ensures ValidTables(AddApplication(t, name)) && AddApplication(t, name).nextId >= t.nextId
  {
    if name !in t.applications {
      var r := AddApplication(t, name);
      assert r.paths == t.paths && r.users == t.users && r.roles == t.roles;
      forall a | a in r.applications
        ensures 1 <= r.applications[a] < r.nextId
      {
      }
    }
  }

  lemma AddPathValid(t: Tables, appId: int, path: string)
    requires ValidTables(t)
    ensures ValidTables(AddPath(t, appId, path)) && AddPath(t, appId, path).nextId >= t.nextId
  {
    if (appId, path) !in t.paths {
      var r := AddPath(t, appId, path);
      assert r.applications == t.applications && r.users == t.users && r.roles == t.roles;
      forall p | p in r.paths
        ensures 1 <= r.paths[p] < r.nextId
      {
      }
    }
  }

  lemma AddUserValid(t: Tables, appId: int, userName: string, isAnonymous: bool, lastActivity: int)
    requires ValidTables(t)
    ensures ValidTables(AddUser(t, appId, userName, isAnonymous, lastActivity))
    ensures AddUser(t, appId, userName, isAnonymous, lastActivity).nextId >= t.nextId
  {
    if (appId, userName) !in t.users {
      var r := AddUser(t, appId, userName, isAnonymous, lastActivity);
      assert r.applications == t.applications && r.paths == t.paths && r.roles == t.roles;
      forall u | u in r.users
        ensures 1 <= r.users[u].id < r.nextId
      {
      }
    }
  }

  lemma AddRoleValid(t: Tables, appId: int, roleName: string)
    requires ValidTables(t)
    ensures ValidTables(AddRole(t, appId, roleName)) && AddRole(t, appId, roleName).nextId >= t.nextId
  {
    if (appId, roleName) !in t.roles {
      var r := AddRole(t, appId, roleName);
      assert r.applications == t.applications && r.paths == t.paths && r.users == t.users;
      forall q | q in r.roles
        ensures 1 <= r.roles[q] < r.nextId
      {
      }
    }
  }

  lemma RemoveRoleValid(t: Tables, roleId: int)
    requires ValidTables(t)
    ensures ValidTables(RemoveRole(t, roleId)) && RemoveRole(t, roleId).nextId == t.nextId
  {
    var r := RemoveRole(t, roleId);
    assert r.applications == t.applications && r.paths == t.paths && r.users == t.users;
    forall q | q in r.roles
      ensures 1 <= r.roles[q] < r.nextId
    {
      assert r.roles[q] == t.roles[q];
    }
  }

  /** A statement on a data table keeps every id-carrying table. */
  lemma OtherStatementKeepsIds(t: Tables, s: Statement)
    requires !TouchesIds(s)
    ensures SameIds(t, Apply(t, s))
  {
  }

  /** The other statements leave the id-carrying tables alone. */
  lemma KeepsIds(t: Tables, s: Statement)
    requires ValidTables(t) && !TouchesIds(s)
    ensures ValidTables(Apply(t, s)) && Apply(t, s).nextId == t.nextId
  {
    var r := Apply(t, s);
    assert SameIds(t, r);
    assert r.applications == t.applications && r.paths == t.paths && r.users == t.users && r.roles == t.roles;
  }

  lemma TouchUserValid(t: Tables, userId: int, lastActivity: int)
    requires ValidTables(t)
    ensures ValidTables(TouchUser(t, userId, lastActivity)) && TouchUser(t, userId, lastActivity).nextId == t.nextId
  {
    var r := TouchUser(t, userId, lastActivity);
    forall u | u in r.users
      ensures 1 <= r.users[u].id < r.nextId
    {
      assert r.users[u].id == t.users[u].id;
    }
  }

  /** Lookup after insert: inserting an absent name makes the lookup find a
      new id that no other row of that table carries. */
  lemma InsertedUserIsFound(t: Tables, appId: int, userName: string, isAnonymous: bool, lastActivity: int)
    requires ValidTables(t) && (appId, userName) !in t.users
    ensures Affected(t, InsertUser(appId, userName, isAnonymous, lastActivity)) == 1
    ensures (appId, userName) in Apply(t, InsertUser(appId, userName, isAnonymous, lastActivity)).users
    ensures Apply(t, InsertUser(appId, userName, isAnonymous, lastActivity)).users[(appId, userName)].id >= 1
    ensures forall u :: u in t.users ==>
              t.users[u].id != Apply(t, InsertUser(appId, userName, isAnonymous, lastActivity)).users[(appId, userName)].id
  {
  }

  /** Inserting or deleting a (user, role) pair changes aspnet_UsersInRoles
      alone, and affects one row exactly when the pair was absent (insert)
      or present (delete). */
  lemma PairStatements(t: Tables, userId: int, roleId: int)
    ensures Apply(t, InsertUserInRole(userId, roleId)) == t.(usersInRoles := t.usersInRoles + {(userId, roleId)})
    ensures Apply(t, DeleteUserInRole(userId, roleId)) == t.(usersInRoles := t.usersInRoles - {(userId, roleId)})
    ensures Affected(t, InsertUserInRole(userId, roleId)) == 1 <==> (userId, roleId) !in t.usersInRoles
    ensures Affected(t, DeleteUserInRole(userId, roleId)) == 1 <==> (userId, roleId) in t.usersInRoles
  {
  }

  /** A set of keys of a map, removed from it, shrinks it by its own size. */
  lemma {:induction false} WithoutCardinality<K, V>(m: map<K, V>, gone: set<K>)
    requires gone <= m.Keys
    ensures |Without(m, gone).Keys| == |m.Keys| - |gone|
  {
    var rest := m.Keys - gone;
    assert rest + gone == m.Keys;
    assert rest * gone == {};
  }

  /** Deleting a user's blobs affects exactly the rows it removes, so a
      count taken just before the delete equals the shrinking of the table. */
  lemma DeleteUserBlobsOfCount(t: Tables, userId: int, pathFilter: Option<int>)
    ensures |Apply(t, DeleteUserBlobsOf(userId, pathFilter)).userBlobs.Keys| + Affected(t, DeleteUserBlobsOf(userId, pathFilter))
            == |t.userBlobs.Keys|
  {
    WithoutCardinality(t.userBlobs, UserBlobsOf(t, userId, pathFilter));
  }

  /** The same for the per-user blobs of one path. */
  lemma DeleteUserBlobsAtCount(t: Tables, pathId: int)
    ensures |Apply(t, DeleteUserBlobsAt(pathId)).userBlobs.Keys| + Affected(t, DeleteUserBlobsAt(pathId)) == |t.userBlobs.Keys|
  {
    WithoutCardinality(t.userBlobs, UserBlobsAt(t, pathId));
  }

  /** The same for the blobs of inactive users. */
  lemma DeleteInactiveUserBlobsCount(t: Tables, appId: int, since: int, pathName: Option<string>)
    ensures |Apply(t, DeleteInactiveUserBlobs(appId, since, pathName)).userBlobs.Keys|
            + Affected(t, DeleteInactiveUserBlobs(appId, since, pathName)) == |t.userBlobs.Keys|
  {
    WithoutCardinality(t.userBlobs, InactiveUserBlobs(t, appId, since, pathName));
  }

  /** The same for the shared blob of one path. */
  lemma DeleteSharedBlobsAtCount(t: Tables, pathId: int)
    ensures |Apply(t, DeleteSharedBlobsAt(pathId)).sharedBlobs.Keys| + Affected(t, DeleteSharedBlobsAt(pathId))
            == |t.sharedBlobs.Keys|
  {
    if pathId in t.sharedBlobs {
      WithoutCardinality(t.sharedBlobs, {pathId});
    }
  }

  /** The database connection's view of the file: the current tables and,
      between BEGIN TRANSACTION and its COMMIT or ROLLBACK, the tables as
      they were at BEGIN. */
  class Database {
    var tables: Tables
    var snapshot: Option<Tables>

    ghost predicate Valid()
      reads this
    {
      ValidTables(tables) && (snapshot.Some? ==> ValidTables(snapshot.value))
    }

    constructor (initial: Tables)
      requires ValidTables(initial)
      ensures Valid() && tables == initial && snapshot.None?
    {
      tables := initial;
      snapshot := None;
    }

    /** BEGIN TRANSACTION. */
    method Begin()
      requires Valid() && snapshot.None?
      modifies this
      ensures Valid() && tables == old(tables) && snapshot == Some(old(tables))
    {
      snapshot := Some(tables);
    }

    /** COMMIT TRANSACTION: the changes stay. */
    method Commit()
      requires Valid()
      modifies this
      ensures Valid() && tables == old(tables) && snapshot.None?
    {
      snapshot := None;
    }

    /** ROLLBACK TRANSACTION: back to the tables at BEGIN. Outside a
        transaction the statement fails, and the providers swallow that
        failure, so nothing changes. */
    method Rollback()
      requires Valid()
      modifies this
      ensures Valid() && snapshot.None?
      ensures tables == (if old(snapshot).Some? then old(snapshot).value else old(tables))
    {
      if snapshot.Some? {
        tables := snapshot.value;
      }
      snapshot := None;
    }

    /** ExecuteNonQuery: runs the statement and reports the rows affected. */
    method Execute(s: Statement) returns (affected: int)
      requires Valid()
      modifies this
      ensures Valid() && snapshot == old(snapshot)
      ensures tables == Apply(old(tables), s) && affected == Affected(old(tables), s)
    {
      ApplyPreservesValid(tables, s);
      affected := Affected(tables, s);
      tables := Apply(tables, s);
    }
  }
}
