/** The Access role provider: the roles of an application and the
    (user, role) pairs of aspnet_UsersInRoles. Every call takes a holder
    from the connection cache, resolves the application id, runs its
    statements (inside one transaction when it writes) and releases the
    holder on every path. Names are taken as they stand after the
    provider's parameter checks. */
module AccessRoles {
  import opened Common
  import opened AccessStore
  import opened ConnectionHelper
  import opened Connections
  import opened Identifiers
  import opened Transactions

  /** GetRoleId: the id of an application's role, 0 when absent. */
  function RoleIdIn(t: Tables, appId: int, roleName: string): int
  {
    if (appId, roleName) in t.roles then t.roles[(appId, roleName)] else 0
  }

  /** A lookup yields a non-zero id exactly for a present role; creating a
      role gives it a new positive id and leaves every other role's id
      alone; deleting a role by its id makes its name unknown. */
  lemma {:induction false} RoleIdSpec(t: Tables, appId: int, roleName: string, otherApp: int, otherName: string)
    requires ValidTables(t)
    ensures RoleIdIn(t, appId, roleName) != 0 <==> (appId, roleName) in t.roles
    ensures RoleIdIn(AddRole(t, appId, roleName), appId, roleName) >= 1
    ensures (otherApp, otherName) != (appId, roleName) ==>
              RoleIdIn(AddRole(t, appId, roleName), otherApp, otherName) == RoleIdIn(t, otherApp, otherName)
    ensures RoleIdIn(RemoveRole(t, RoleIdIn(t, appId, roleName)), appId, roleName) == 0
  {
    if (appId, roleName) !in t.roles {
      assert AddRole(t, appId, roleName).roles[(appId, roleName)] == t.nextId;
    }
  }

  /** The id GetUserID finds for a name without creating it: 0 for the
      empty name and for application 0. */
  function LookedUpUserId(t: Tables, appId: int, userName: string): int
  {
    if appId == 0 || userName == [] then 0 else UserIdIn(t, appId, userName)
  }

  /** The ids found for a list of user names. */
  function UserIds(t: Tables, appId: int, names: seq<string>): (r: seq<int>)
    ensures |r| == |names|
    ensures forall k :: 0 <= k < |names| ==> r[k] == LookedUpUserId(t, appId, names[k])
  {
    seq(|names|, k requires 0 <= k < |names| => LookedUpUserId(t, appId, names[k]))
  }

  /** The ids found for a list of role names. */
  function RoleIds(t: Tables, appId: int, names: seq<string>): (r: seq<int>)
    ensures |r| == |names|
    ensures forall k :: 0 <= k < |names| ==> r[k] == RoleIdIn(t, appId, names[k])
  {
    seq(|names|, k requires 0 <= k < |names| => RoleIdIn(t, appId, names[k]))
  }

  /** The position of the first 0 id, the name a lookup loop stops at. */
  function FirstZero(ids: seq<int>): (r: Option<nat>)
    ensures r.None? <==> forall k :: 0 <= k < |ids| ==> ids[k] != 0
    ensures r.Some? ==> r.value < |ids| && ids[r.value] == 0 && forall k :: 0 <= k < r.value ==> ids[k] != 0
  {
    if ids == [] then None
    else if ids[0] == 0 then Some(0)
    else match FirstZero(ids[1..]) {
      case None => None
      case Some(k) => Some(k + 1)
    }
  }

  /** Every user id paired with every role id. */
  function Pairs(userIds: seq<int>, roleIds: seq<int>): set<(int, int)>
  {
    set u, r | u in userIds && r in roleIds :: (u, r)
  }

  /** One user id paired with every role id. */
  function Row(userId: int, roleIds: seq<int>): set<(int, int)>
  {
    set r | r in roleIds :: (userId, r)
  }

  lemma PairsGrow(userIds: seq<int>, roleIds: seq<int>, i: nat)
    requires i < |userIds|
    ensures Pairs(userIds[..i + 1], roleIds) == Pairs(userIds[..i], roleIds) + Row(userIds[i], roleIds)
  {
    var longer := userIds[..i + 1];
    assert longer == userIds[..i] + [userIds[i]];
    forall p | p in Pairs(longer, roleIds)
      ensures p in Pairs(userIds[..i], roleIds) + Row(userIds[i], roleIds)
    {
      var u, r :| u in longer && r in roleIds && p == (u, r);
      if u !in userIds[..i] {
        assert u == userIds[i];
      }
    }
  }

  lemma RowGrow(userId: int, roleIds: seq<int>, j: nat)
    requires j < |roleIds|
    ensures Row(userId, roleIds[..j + 1]) == Row(userId, roleIds[..j]) + {(userId, roleIds[j])}
  {
    var longer := roleIds[..j + 1];
    assert longer == roleIds[..j] + [roleIds[j]];
    forall p | p in Row(userId, longer)
      ensures p in Row(userId, roleIds[..j]) + {(userId, roleIds[j])}
    {
      var r :| r in longer && p == (userId, r);
      if r !in roleIds[..j] {
        assert r == roleIds[j];
      }
    }
    assert longer[j] == roleIds[j];
    assert (userId, roleIds[j]) in Row(userId, longer);
  }

  /** Inserting one user's pairs, role by role, adds a row every time:
      no pair is there yet and no role id repeats. */
  predicate RowInserts(existing: set<(int, int)>, userId: int, roleIds: seq<int>)
  {
    forall j :: 0 <= j < |roleIds| ==> (userId, roleIds[j]) !in existing && roleIds[j] !in roleIds[..j]
  }

  /** Inserting every pair, user by user, adds a row every time. */
  predicate PairsInsert(existing: set<(int, int)>, userIds: seq<int>, roleIds: seq<int>)
  {
    forall i :: 0 <= i < |userIds| ==> RowInserts(existing + Pairs(userIds[..i], roleIds), userIds[i], roleIds)
  }

  /** Deleting one user's pairs, role by role, removes a row every time:
      every pair is there and no role id repeats. */
  predicate RowDeletes(existing: set<(int, int)>, userId: int, roleIds: seq<int>)
  {
    forall j :: 0 <= j < |roleIds| ==> (userId, roleIds[j]) in existing && roleIds[j] !in roleIds[..j]
  }

  /** Deleting every pair, user by user, removes a row every time. */
  predicate PairsDelete(existing: set<(int, int)>, userIds: seq<int>, roleIds: seq<int>)
  {
    forall i :: 0 <= i < |userIds| ==> RowDeletes(existing - Pairs(userIds[..i], roleIds), userIds[i], roleIds)
  }

  /** Distinct users and distinct roles, none paired yet, are all inserted
      one row at a time. */
  lemma DistinctPairsInsert(existing: set<(int, int)>, userIds: seq<int>, roleIds: seq<int>)
    requires Distinct(userIds) && Distinct(roleIds)
    requires forall i, j :: 0 <= i < |userIds| && 0 <= j < |roleIds| ==> (userIds[i], roleIds[j]) !in existing
    ensures PairsInsert(existing, userIds, roleIds)
  {
    forall i, j | 0 <= i < |userIds| && 0 <= j < |roleIds|
      ensures (userIds[i], roleIds[j]) !in Pairs(userIds[..i], roleIds)
    {
      assert forall k :: 0 <= k < i ==> userIds[k] != userIds[i];
    }
  }

  /** Distinct users and distinct roles, all paired, are all deleted one
      row at a time. */
  lemma DistinctPairsDelete(existing: set<(int, int)>, userIds: seq<int>, roleIds: seq<int>)
    requires Distinct(userIds) && Distinct(roleIds)
    requires forall i, j :: 0 <= i < |userIds| && 0 <= j < |roleIds| ==> (userIds[i], roleIds[j]) in existing
    ensures PairsDelete(existing, userIds, roleIds)
  {
    forall i, j | 0 <= i < |userIds| && 0 <= j < |roleIds|
      ensures (userIds[i], roleIds[j]) !in Pairs(userIds[..i], roleIds)
    {
      assert forall k :: 0 <= k < i ==> userIds[k] != userIds[i];
    }
  }

  /** A role named twice makes the second insert of a pair add nothing. */
  lemma RepeatedRoleInsertFails(existing: set<(int, int)>, userIds: seq<int>, roleIds: seq<int>)
    requires |userIds| > 0 && !Distinct(roleIds)
    ensures !PairsInsert(existing, userIds, roleIds)
  {
    var j, k :| 0 <= j < k < |roleIds| && roleIds[j] == roleIds[k];
    assert roleIds[..k][j] == roleIds[k];
    assert !RowInserts(existing + Pairs(userIds[..0], roleIds), userIds[0], roleIds);
  }

  /** When AddUsersToRoles commits: every role exists, no existing user
      is in any of the roles, every name yields a user, and every insert
      adds a row. */
  predicate GrantSucceeds(t: Tables, appId: int, usernames: seq<string>, roleNames: seq<string>, dt: int)
  {
    var roleIds := RoleIds(t, appId, roleNames);
    && FirstZero(roleIds).None?
    && NoneInRoles(t, UserIds(t, appId, usernames), roleIds)
    && (forall k :: 0 <= k < |usernames| ==> usernames[k] != [])
    && PairsInsert(t.usersInRoles, UserIds(AddUsers(t, appId, usernames, dt), appId, usernames), roleIds)
  }

  /** When RemoveUsersFromRoles commits: every user and every role exists,
      every user is in every role, and every delete removes a row. */
  predicate RevokeSucceeds(t: Tables, appId: int, usernames: seq<string>, roleNames: seq<string>)
  {
    var userIds := UserIds(t, appId, usernames);
    var roleIds := RoleIds(t, appId, roleNames);
    && FirstZero(userIds).None?
    && FirstZero(roleIds).None?
    && AllInRoles(t, userIds, roleIds)
    && PairsDelete(t.usersInRoles, userIds, roleIds)
  }

  /** A role named twice in AddUsersToRoles makes it fail. */
  lemma RepeatedRoleNameRefused(t: Tables, appId: int, usernames: seq<string>, roleNames: seq<string>, dt: int, j: nat, k: nat)
    requires |usernames| > 0 && j < k < |roleNames| && roleNames[j] == roleNames[k]
    ensures !GrantSucceeds(t, appId, usernames, roleNames, dt)
  {
    var roleIds := RoleIds(t, appId, roleNames);
    assert roleIds[j] == roleIds[k];
    RepeatedRoleInsertFails(t.usersInRoles, UserIds(AddUsers(t, appId, usernames, dt), appId, usernames), roleIds);
  }

  /** A user and a role named once each, both known and paired, are
      removed by RemoveUsersFromRoles. */
  lemma SinglePairRevoked(t: Tables, appId: int, userName: string, roleName: string)
    requires LookedUpUserId(t, appId, userName) != 0 && RoleIdIn(t, appId, roleName) != 0
    requires (LookedUpUserId(t, appId, userName), RoleIdIn(t, appId, roleName)) in t.usersInRoles
    ensures RevokeSucceeds(t, appId, [userName], [roleName])
  {
    DistinctPairsDelete(t.usersInRoles, UserIds(t, appId, [userName]), RoleIds(t, appId, [roleName]));
  }

  /** While role ids are unique, DeleteRole of a known role removes one
      row, so DeleteRole answers true. */
  lemma KnownRoleDeletesOneRow(t: Tables, appId: int, roleName: string)
    requires forall a, b :: a in t.roles && b in t.roles && t.roles[a] == t.roles[b] ==> a == b
    requires RoleIdIn(t, appId, roleName) != 0
    ensures Affected(t, DeleteRole(RoleIdIn(t, appId, roleName))) == 1
  {
    var roleId := RoleIdIn(t, appId, roleName);
    assert (appId, roleName) in t.roles && t.roles[(appId, roleName)] == roleId;
    assert (set r | r in t.roles && t.roles[r] == roleId) == {(appId, roleName)};
  }

  /** No user id that is not 0 is paired with any of the role ids. */
  predicate NoneInRoles(t: Tables, userIds: seq<int>, roleIds: seq<int>)
  {
    forall i, j :: 0 <= i < |userIds| && 0 <= j < |roleIds| && userIds[i] != 0 ==>
      (userIds[i], roleIds[j]) !in t.usersInRoles
  }

  /** Every user id is paired with every role id. */
  predicate AllInRoles(t: Tables, userIds: seq<int>, roleIds: seq<int>)
  {
    forall i, j :: 0 <= i < |userIds| && 0 <= j < |roleIds| ==> (userIds[i], roleIds[j]) in t.usersInRoles
  }

  /** IsUserInRole's answer: the user and the role exist and are paired. */
  predicate UserInRole(t: Tables, appId: int, userName: string, roleName: string)
  {
    var userId := LookedUpUserId(t, appId, userName);
    var roleId := RoleIdIn(t, appId, roleName);
    userId != 0 && roleId != 0 && (userId, roleId) in t.usersInRoles
  }

  /** The tables after creating, in order, each name that is absent, as a
      non-anonymous user last active at dt. */
  function AddUsers(t: Tables, appId: int, names: seq<string>, dt: int): Tables
  {
    if names == [] then t
    else AddUser(AddUsers(t, appId, names[..|names| - 1], dt), appId, names[|names| - 1], false, dt)
  }

  /** Creating users only adds rows to aspnet_Users and moves the id
      counter: every other table is kept and the tables stay valid. */
  lemma {:induction false} AddUsersOnlyAddsUsers(t: Tables, appId: int, names: seq<string>, dt: int)
    requires ValidTables(t)
    ensures ValidTables(AddUsers(t, appId, names, dt))
    ensures AddUsers(t, appId, names, dt) == t.(users := AddUsers(t, appId, names, dt).users,
                                                 nextId := AddUsers(t, appId, names, dt).nextId)
    decreases |names|
  {
    if names != [] {
      var prefix := names[..|names| - 1];
      AddUsersOnlyAddsUsers(t, appId, prefix, dt);
      AddUserValid(AddUsers(t, appId, prefix, dt), appId, names[|names| - 1], false, dt);
    }
  }

  /** Creating users keeps every existing user as it was and leaves each
      name present. */
  lemma {:induction false} AddUsersKeepsUsers(t: Tables, appId: int, names: seq<string>, dt: int)
    ensures forall key :: key in t.users ==>
              key in AddUsers(t, appId, names, dt).users && AddUsers(t, appId, names, dt).users[key] == t.users[key]
    ensures forall k :: 0 <= k < |names| ==> (appId, names[k]) in AddUsers(t, appId, names, dt).users
    decreases |names|
  {
    if names != [] {
      var prefix := names[..|names| - 1];
      AddUsersKeepsUsers(t, appId, prefix, dt);
      forall k | 0 <= k < |names| - 1
        ensures (appId, names[k]) in AddUsers(t, appId, prefix, dt).users
      {
        assert names[k] == prefix[k];
      }
    }
  }

  /** Creating a user keeps the id of every user already present. */
  lemma AddUserKeepsIds(t: Tables, appId: int, userName: string, dt: int, other: string)
    requires (appId, other) in t.users
    ensures UserIdIn(AddUser(t, appId, userName, false, dt), appId, other) == UserIdIn(t, appId, other)
  {
  }

  /** What the creation loop of AddUsersToRoles knows before position i:
      every earlier name, and every later name already found, is a user
      whose id is held. */
  predicate IdsKnown(t: Tables, appId: int, names: seq<string>, ids: seq<int>, i: nat)
  {
    && |ids| == |names| && i <= |names|
    && forall k :: 0 <= k < |names| && (k < i || ids[k] != 0) ==>
         names[k] != [] && ids[k] != 0 && ids[k] == UserIdIn(t, appId, names[k])
  }

  lemma IdsKnownAtStart(t: Tables, appId: int, names: seq<string>)
    ensures IdsKnown(t, appId, names, UserIds(t, appId, names), 0)
  {
  }

  lemma IdsKnownStep(t: Tables, appId: int, names: seq<string>, ids: seq<int>, i: nat, dt: int, id: int)
    requires IdsKnown(t, appId, names, ids, i) && i < |names| && names[i] != []
    requires id == UserIdIn(AddUser(t, appId, names[i], false, dt), appId, names[i]) && id != 0
    ensures IdsKnown(AddUser(t, appId, names[i], false, dt), appId, names, ids[i := id], i + 1)
  {
    forall k | 0 <= k < |names| && k != i && (k < i || ids[k] != 0)
      ensures UserIdIn(AddUser(t, appId, names[i], false, dt), appId, names[k]) == UserIdIn(t, appId, names[k])
    {
      AddUserKeepsIds(t, appId, names[i], dt, names[k]);
    }
  }

  lemma IdsKnownAtEnd(t: Tables, appId: int, names: seq<string>, ids: seq<int>)
    requires appId != 0 && IdsKnown(t, appId, names, ids, |names|)
    ensures ids == UserIds(t, appId, names)
    ensures forall k :: 0 <= k < |names| ==> names[k] != [] && ids[k] != 0
  {
  }

  /** AddUsersToRoles' effect: the absent users are created and every
      named user is paired with every named role. */
  ghost predicate Granted(t: Tables, r: Tables, appId: int, usernames: seq<string>, roleNames: seq<string>, dt: int)
  {
    var withUsers := AddUsers(t, appId, usernames, dt);
    r == withUsers.(usersInRoles :=
                      t.usersInRoles + Pairs(UserIds(withUsers, appId, usernames), RoleIds(t, appId, roleNames)))
  }

  /** RemoveUsersFromRoles' effect: every named user leaves every named
      role. */
  ghost predicate Revoked(t: Tables, r: Tables, appId: int, usernames: seq<string>, roleNames: seq<string>)
  {
    r == t.(usersInRoles := t.usersInRoles - Pairs(UserIds(t, appId, usernames), RoleIds(t, appId, roleNames)))
  }

  /** After AddUsersToRoles every named user is in every named role, as
      IsUserInRole answers it. */
  lemma {:induction false} GrantedMeansInRole(t: Tables, r: Tables, appId: int, usernames: seq<string>,
                                              roleNames: seq<string>, dt: int, i: nat, j: nat)
    requires ValidTables(t) && appId != 0
    requires Granted(t, r, appId, usernames, roleNames, dt)
    requires i < |usernames| && j < |roleNames| && usernames[i] != []
    requires RoleIdIn(t, appId, roleNames[j]) != 0
    ensures UserInRole(r, appId, usernames[i], roleNames[j])
  {
    AddUsersOnlyAddsUsers(t, appId, usernames, dt);
    AddUsersKeepsUsers(t, appId, usernames, dt);
    var withUsers := AddUsers(t, appId, usernames, dt);
    var userIds := UserIds(withUsers, appId, usernames);
    var roleIds := RoleIds(t, appId, roleNames);
    assert (userIds[i], roleIds[j]) in Pairs(userIds, roleIds);
    assert LookedUpUserId(r, appId, usernames[i]) == userIds[i] != 0;
    assert RoleIdIn(r, appId, roleNames[j]) == roleIds[j];
  }

  /** After RemoveUsersFromRoles no named user is in a named role. */
  lemma {:induction false} RevokedMeansNotInRole(t: Tables, r: Tables, appId: int, usernames: seq<string>,
                                                 roleNames: seq<string>, i: nat, j: nat)
    requires Revoked(t, r, appId, usernames, roleNames)
    requires i < |usernames| && j < |roleNames|
    ensures !UserInRole(r, appId, usernames[i], roleNames[j])
  {
    var userIds := UserIds(t, appId, usernames);
    var roleIds := RoleIds(t, appId, roleNames);
    assert (userIds[i], roleIds[j]) in Pairs(userIds, roleIds);
  }

  /** Removing what was just added, when every user already existed and
      none was in any of the roles, gives back the tables as they were. */
  lemma {:induction false} RevokeUndoesGrant(t: Tables, r: Tables, s: Tables, appId: int, usernames: seq<string>,
                                             roleNames: seq<string>, dt: int)
    requires ValidTables(t) && appId != 0
    requires forall k :: 0 <= k < |usernames| ==> LookedUpUserId(t, appId, usernames[k]) != 0
    requires NoneInRoles(t, UserIds(t, appId, usernames), RoleIds(t, appId, roleNames))
    requires Granted(t, r, appId, usernames, roleNames, dt)
    requires Revoked(r, s, appId, usernames, roleNames)
    ensures s == t
  {
    AddUsersFoundAll(t, appId, usernames, dt);
    var userIds := UserIds(t, appId, usernames);
    var roleIds := RoleIds(t, appId, roleNames);
    assert UserIds(r, appId, usernames) == userIds;
    assert RoleIds(r, appId, roleNames) == roleIds;
    var added := Pairs(userIds, roleIds);
    assert added * t.usersInRoles == {} by {
      forall p | p in added
        ensures p !in t.usersInRoles
      {
        var i, j :| 0 <= i < |userIds| && 0 <= j < |roleIds| && p == (userIds[i], roleIds[j]);
      }
    }
    assert s.usersInRoles == t.usersInRoles;
  }

  /** Creating names that are all present changes nothing. */
  lemma {:induction false} AddUsersFoundAll(t: Tables, appId: int, names: seq<string>, dt: int)
    requires forall k :: 0 <= k < |names| ==> (appId, names[k]) in t.users
    ensures AddUsers(t, appId, names, dt) == t
    decreases |names|
  {
    if names != [] {
      var prefix := names[..|names| - 1];
      assert forall k :: 0 <= k < |prefix| ==> prefix[k] == names[k];
      AddUsersFoundAll(t, appId, prefix, dt);
    }
  }

  /** A role with at least one member whose user row exists. */
  predicate RoleInUse(t: Tables, roleId: int)
  {
    exists p :: p in t.usersInRoles && p.1 == roleId && exists u :: u in t.users && t.users[u].id == p.0
  }

  class AccessRoleProvider {
    const db: Database
    const connections: ConnectionCache
    const idCache: ApplicationIdCache
    const databaseFileName: string

    /** Between calls: no transaction, no holder in use, and the cached
        application id, if any, is the application's. */
    ghost predicate Valid()
      reads this, db, connections, connections.Holders(), idCache
    {
      Quiet(db, connections) && idCache.Consistent(db.tables)
    }

    constructor (db: Database, connections: ConnectionCache, idCache: ApplicationIdCache, databaseFileName: string)
      ensures this.db == db && this.connections == connections && this.idCache == idCache
      ensures this.databaseFileName == databaseFileName
    {
      this.db := db;
      this.connections := connections;
      this.idCache := idCache;
      this.databaseFileName := databaseFileName;
    }

    /** The application name the provider resolves. */
    function AppName(): string
      reads idCache
    {
      Truncated(idCache.EffectiveName())
    }

    /** The tables once the application's row exists. */
    function WithApplication(t: Tables): Tables
      reads idCache
    {
      AddApplication(t, AppName())
    }

    /** GetApplicationId as the calls use it: the application's id, its row
        created if it was missing. */
    method ResolveApplication(holderCreateDate: int, now: int) returns (appId: int)
      requires db.Valid() && idCache.Consistent(db.tables)
      modifies db, idCache
      ensures db.Valid() && db.snapshot == old(db.snapshot) && idCache.Consistent(db.tables)
      ensures AppName() == old(AppName())
      ensures db.tables == WithApplication(old(db.tables))
      ensures appId >= 1 && appId == ApplicationIdIn(db.tables, AppName())
    {
      var r := idCache.GetApplicationId(db, holderCreateDate, now);
      appId := r.value;
    }

    /** The role loop of AddUsersToRoles and RemoveUsersFromRoles: each
        name's id in turn, stopping at the first unknown role. */
    method FindRoles(appId: int, roleNames: seq<string>, notFound: string)
      returns (roleIds: array<int>, r: Outcome<Exception>)
      ensures fresh(roleIds) && roleIds.Length == |roleNames|
      ensures var first := FirstZero(RoleIds(db.tables, appId, roleNames));
              && (first.None? ==> r.Pass? && roleIds[..] == RoleIds(db.tables, appId, roleNames))
              && (first.Some? ==> r == Fail(ProviderException(notFound + roleNames[first.value])))
    {
      roleIds := new int[|roleNames|];
      ghost var expected := RoleIds(db.tables, appId, roleNames);
      for j := 0 to |roleNames|
        invariant forall k :: 0 <= k < j ==> roleIds[k] == expected[k] != 0
      {
        roleIds[j] := RoleIdIn(db.tables, appId, roleNames[j]);
        if roleIds[j] == 0 {
          return roleIds, Fail(ProviderException(notFound + roleNames[j]));
        }
      }
      assert roleIds[..] == expected;
      return roleIds, Pass;
    }

    /** The user loop of AddUsersToRoles: each name's id, 0 for a user
        that does not exist yet. */
    method LookUpUsers(appId: int, usernames: seq<string>, now: nat) returns (userIds: array<int>)
      requires db.Valid()
      modifies db
      ensures db.Valid() && db.tables == old(db.tables) && db.snapshot == old(db.snapshot)
      ensures fresh(userIds) && userIds[..] == UserIds(db.tables, appId, usernames)
    {
      userIds := new int[|usernames|];
      for i := 0 to |usernames|
        invariant db.Valid() && db.tables == old(db.tables) && db.snapshot == old(db.snapshot)
        invariant forall k :: 0 <= k < i ==> userIds[k] == LookedUpUserId(db.tables, appId, usernames[k])
      {
        userIds[i] := GetUserID(db, appId, Some(usernames[i]), false, false, now);
      }
    }

    /** The user loop of RemoveUsersFromRoles: each name's id in turn,
        stopping at the first unknown user. */
    method FindUsers(appId: int, usernames: seq<string>, now: nat)
      returns (userIds: array<int>, r: Outcome<Exception>)
      requires db.Valid()
      modifies db
      ensures db.Valid() && db.tables == old(db.tables) && db.snapshot == old(db.snapshot)
      ensures fresh(userIds) && userIds.Length == |usernames|
      ensures var first := FirstZero(UserIds(db.tables, appId, usernames));
              && (first.None? ==> r.Pass? && userIds[..] == UserIds(db.tables, appId, usernames))
              && (first.Some? ==> r == Fail(ProviderException("User not found: " + usernames[first.value])))
    {
      userIds := new int[|usernames|];
      ghost var expected := UserIds(db.tables, appId, usernames);
      for i := 0 to |usernames|
        invariant db.Valid() && db.tables == old(db.tables) && db.snapshot == old(db.snapshot)
        invariant forall k :: 0 <= k < i ==> userIds[k] == expected[k] != 0
      {
        userIds[i] := GetUserID(db, appId, Some(usernames[i]), false, false, now);
        if userIds[i] == 0 {
          return userIds, Fail(ProviderException("User not found: " + usernames[i]));
        }
      }
      assert userIds[..] == expected;
      return userIds, Pass;
    }

    /** The check of AddUsersToRoles: no existing user may already be in
        any of the roles; the first pair found, users before roles, is
        reported. */
    method CheckNoneInRoles(usernames: seq<string>, roleNames: seq<string>, userIds: seq<int>, roleIds: seq<int>)
      returns (r: Outcome<Exception>)
      requires |userIds| == |usernames| && |roleIds| == |roleNames|
      ensures r.Pass? <==> NoneInRoles(db.tables, userIds, roleIds)
      ensures r.Fail? ==>
                exists i, j :: 0 <= i < |userIds| && 0 <= j < |roleIds| && userIds[i] != 0
                  && (userIds[i], roleIds[j]) in db.tables.usersInRoles
                  && r == Fail(ProviderException("The user " + usernames[i] + " is already in role " + roleNames[j]))
    {
      for i := 0 to |usernames|
        invariant NoneInRoles(db.tables, userIds[..i], roleIds)
      {
        if userIds[i] != 0 {
          for j := 0 to |roleNames|
            invariant forall k :: 0 <= k < j ==> (userIds[i], roleIds[k]) !in db.tables.usersInRoles
          {
            if (userIds[i], roleIds[j]) in db.tables.usersInRoles {
              return Fail(ProviderException("The user " + usernames[i] + " is already in role " + roleNames[j]));
            }
          }
        }
      }
      assert userIds[..|usernames|] == userIds;
      return Pass;
    }

    /** The check of RemoveUsersFromRoles: every user must be in every
        role; the first missing pair, users before roles, is reported. */
    method CheckAllInRoles(usernames: seq<string>, roleNames: seq<string>, userIds: seq<int>, roleIds: seq<int>)
      returns (r: Outcome<Exception>)
      requires |userIds| == |usernames| && |roleIds| == |roleNames|
      ensures r.Pass? <==> AllInRoles(db.tables, userIds, roleIds)
      ensures r.Fail? ==>
                exists i, j :: 0 <= i < |userIds| && 0 <= j < |roleIds|
                  && (userIds[i], roleIds[j]) !in db.tables.usersInRoles
                  && r == Fail(ProviderException("The user " + usernames[i] + " is already not in role " + roleNames[j]))
    {
      for i := 0 to |usernames|
        invariant AllInRoles(db.tables, userIds[..i], roleIds)
      {
        for j := 0 to |roleNames|
          invariant forall k :: 0 <= k < j ==> (userIds[i], roleIds[k]) in db.tables.usersInRoles
        {
          if (userIds[i], roleIds[j]) !in db.tables.usersInRoles {
            return Fail(ProviderException("The user " + usernames[i] + " is already not in role " + roleNames[j]));
          }
        }
      }
      assert userIds[..|usernames|] == userIds;
      return Pass;
    }

    /** One step of the creation loop of AddUsersToRoles: a user not
        found before is looked up again and created if still absent. */
    method EnsureUser(appId: int, userName: string, knownId: int, now: nat) returns (id: int)
      requires db.Valid() && appId != 0
      requires knownId != 0 ==> userName != [] && knownId == UserIdIn(db.tables, appId, userName)
      modifies db
      ensures db.Valid() && db.snapshot == old(db.snapshot)
      ensures userName == [] ==> id == 0 && db.tables == old(db.tables)
      ensures userName != [] ==>
                && db.tables == AddUser(old(db.tables), appId, userName, false, RoundToSeconds(now))
                && id == UserIdIn(db.tables, appId, userName) && id != 0
    {
      id := knownId;
      if id == 0 {
        id := GetUserID(db, appId, Some(userName), true, false, now);
      }
    }

    /** The creation loop of AddUsersToRoles: each user not found is
        created; a name that yields no user stops the loop. */
    method CreateMissingUsers(appId: int, usernames: seq<string>, userIds: array<int>, now: nat)
      returns (r: Outcome<Exception>)
      requires db.Valid() && appId != 0
      requires userIds[..] == UserIds(db.tables, appId, usernames)
      modifies db, userIds
      ensures db.Valid() && db.snapshot == old(db.snapshot)
      ensures r.Pass? <==> forall k :: 0 <= k < |usernames| ==> usernames[k] != []
      ensures r.Fail? ==> r == Fail(ProviderException("User not found: "))
      ensures r.Pass? ==> && db.tables == AddUsers(old(db.tables), appId, usernames, RoundToSeconds(now))
                          && userIds[..] == UserIds(db.tables, appId, usernames)
                          && forall k :: 0 <= k < |usernames| ==> userIds[k] != 0
    {
      ghost var t0 := db.tables;
      ghost var dt := RoundToSeconds(now);
      IdsKnownAtStart(t0, appId, usernames);
      for i := 0 to |usernames|
        invariant db.Valid() && db.snapshot == old(db.snapshot)
        invariant db.tables == AddUsers(t0, appId, usernames[..i], dt)
        invariant IdsKnown(db.tables, appId, usernames, userIds[..], i)
      {
        assert usernames[..i + 1][..i] == usernames[..i];
        ghost var before := db.tables;
        ghost var ids := userIds[..];
        var id := EnsureUser(appId, usernames[i], userIds[i], now);
        if id == 0 {
          assert "User not found: " + usernames[i] == "User not found: ";
          return Fail(ProviderException("User not found: " + usernames[i]));
        }
        IdsKnownStep(before, appId, usernames, ids, i, dt, id);
        userIds[i] := id;
        assert userIds[..] == ids[i := id];
      }
      assert usernames[..|usernames|] == usernames;
      IdsKnownAtEnd(db.tables, appId, usernames, userIds[..]);
      return Pass;
    }

    /** The inner insert loop of AddUsersToRoles: one user paired with
        each role in turn. */
    method InsertRow(userId: int, roleIds: seq<int>) returns (r: Outcome<Exception>)
      requires db.Valid()
      modifies db
      ensures db.Valid() && db.snapshot == old(db.snapshot)
      ensures r.Fail? ==> r == Fail(ProviderException("Unknown provider failure"))
      ensures r.Pass? <==> RowInserts(old(db.tables).usersInRoles, userId, roleIds)
      ensures r.Pass? ==>
                db.tables == old(db.tables).(usersInRoles := old(db.tables).usersInRoles + Row(userId, roleIds))
    {
      ghost var t0 := db.tables;
      for j := 0 to |roleIds|
        invariant db.Valid() && db.snapshot == old(db.snapshot)
        invariant db.tables == t0.(usersInRoles := t0.usersInRoles + Row(userId, roleIds[..j]))
        invariant forall k :: 0 <= k < j ==> (userId, roleIds[k]) !in t0.usersInRoles && roleIds[k] !in roleIds[..k]
      {
        RowGrow(userId, roleIds, j);
        PairStatements(db.tables, userId, roleIds[j]);
        var affected := db.Execute(InsertUserInRole(userId, roleIds[j]));
        if affected != 1 {
          if (userId, roleIds[j]) !in t0.usersInRoles {
            var k :| k in roleIds[..j] && (userId, k) == (userId, roleIds[j]);
          }
          return Fail(ProviderException("Unknown provider failure"));
        }
      }
      assert roleIds[..|roleIds|] == roleIds;
      return Pass;
    }

    /** The insert loop of AddUsersToRoles: one row per pair, each of which
        must affect exactly one row. */
    method InsertPairs(userIds: seq<int>, roleIds: seq<int>) returns (r: Outcome<Exception>)
      requires db.Valid()
      modifies db
      ensures db.Valid() && db.snapshot == old(db.snapshot)
      ensures r.Fail? ==> r == Fail(ProviderException("Unknown provider failure"))
      ensures r.Pass? <==> PairsInsert(old(db.tables).usersInRoles, userIds, roleIds)
      ensures r.Pass? ==>
                db.tables == old(db.tables).(usersInRoles := old(db.tables).usersInRoles + Pairs(userIds, roleIds))
    {
      ghost var t0 := db.tables;
      for i := 0 to |userIds|
        invariant db.Valid() && db.snapshot == old(db.snapshot)
        invariant db.tables == t0.(usersInRoles := t0.usersInRoles + Pairs(userIds[..i], roleIds))
        invariant forall k :: 0 <= k < i ==> RowInserts(t0.usersInRoles + Pairs(userIds[..k], roleIds), userIds[k], roleIds)
      {
        PairsGrow(userIds, roleIds, i);
        r := InsertRow(userIds[i], roleIds);
        if r.Fail? {
          return;
        }
      }
      assert userIds[..|userIds|] == userIds;
      return Pass;
    }

    /** The inner delete loop of RemoveUsersFromRoles: one user taken out
        of each role in turn. */
    method DeleteRow(userId: int, roleIds: seq<int>) returns (r: Outcome<Exception>)
      requires db.Valid()
      modifies db
      ensures db.Valid() && db.snapshot == old(db.snapshot)
      ensures r.Fail? ==> r == Fail(ProviderException("Unknown failure"))
      ensures r.Pass? <==> RowDeletes(old(db.tables).usersInRoles, userId, roleIds)
      ensures r.Pass? ==>
                db.tables == old(db.tables).(usersInRoles := old(db.tables).usersInRoles - Row(userId, roleIds))
    {
      ghost var t0 := db.tables;
      for j := 0 to |roleIds|
        invariant db.Valid() && db.snapshot == old(db.snapshot)
        invariant db.tables == t0.(usersInRoles := t0.usersInRoles - Row(userId, roleIds[..j]))
        invariant forall k :: 0 <= k < j ==> (userId, roleIds[k]) in t0.usersInRoles && roleIds[k] !in roleIds[..k]
      {
        RowGrow(userId, roleIds, j);
        PairStatements(db.tables, userId, roleIds[j]);
        var affected := db.Execute(DeleteUserInRole(userId, roleIds[j]));
        if affected != 1 {
          if (userId, roleIds[j]) in t0.usersInRoles {
            var k :| k in roleIds[..j] && (userId, k) == (userId, roleIds[j]);
          }
          return Fail(ProviderException("Unknown failure"));
        }
      }
      assert roleIds[..|roleIds|] == roleIds;
      return Pass;
    }

    /** The delete loop of RemoveUsersFromRoles: one delete per pair, each
        of which must affect exactly one row. */
    method DeletePairs(userIds: seq<int>, roleIds: seq<int>) returns (r: Outcome<Exception>)
      requires db.Valid()
      modifies db
      ensures db.Valid() && db.snapshot == old(db.snapshot)
      ensures r.Fail? ==> r == Fail(ProviderException("Unknown failure"))
      ensures r.Pass? <==> PairsDelete(old(db.tables).usersInRoles, userIds, roleIds)
      ensures r.Pass? ==>
                db.tables == old(db.tables).(usersInRoles := old(db.tables).usersInRoles - Pairs(userIds, roleIds))
    {
      ghost var t0 := db.tables;
      for i := 0 to |userIds|
        invariant db.Valid() && db.snapshot == old(db.snapshot)
        invariant db.tables == t0.(usersInRoles := t0.usersInRoles - Pairs(userIds[..i], roleIds))
        invariant forall k :: 0 <= k < i ==> RowDeletes(t0.usersInRoles - Pairs(userIds[..k], roleIds), userIds[k], roleIds)
      {
        PairsGrow(userIds, roleIds, i);
        r := DeleteRow(userIds[i], roleIds);
        if r.Fail? {
          return;
        }
      }
      assert userIds[..|userIds|] == userIds;
      return Pass;
    }

    /** AddUsersToRoles from the role lookups to COMMIT: an unknown role is
        refused before BEGIN; after BEGIN, an existing user already in one
        of the roles, a name that yields no user, or an insert that adds no
        row stops it; only full success commits. */
    method GrantAll(appId: int, usernames: seq<string>, roleNames: seq<string>, now: nat) returns (r: Outcome<Exception>)
      requires db.Valid() && db.snapshot.None? && appId != 0
      modifies db
      ensures db.Valid()
      ensures Kept(db).applications == old(db.tables).applications
      ensures r.Fail? ==> Kept(db) == old(db.tables)
      ensures r.Pass? ==>
                db.snapshot.None? && Granted(old(db.tables), db.tables, appId, usernames, roleNames, RoundToSeconds(now))
      ensures var missing := FirstZero(RoleIds(old(db.tables), appId, roleNames));
              missing.Some? ==> r == Fail(ProviderException("Provider role not found: " + roleNames[missing.value]))
      ensures r.Pass? <==> GrantSucceeds(old(db.tables), appId, usernames, roleNames, RoundToSeconds(now))
    {
      var roleIds, found := FindRoles(appId, roleNames, "Provider role not found: ");
      if found.Fail? {
        return found;
      }
      var userIds := LookUpUsers(appId, usernames, now);
      db.Begin();
      r := CheckNoneInRoles(usernames, roleNames, userIds[..], roleIds[..]);
      if r.Fail? {
        return;
      }
      r := CreateMissingUsers(appId, usernames, userIds, now);
      if r.Fail? {
        return;
      }
      AddUsersOnlyAddsUsers(old(db.tables), appId, usernames, RoundToSeconds(now));
      r := InsertPairs(userIds[..], roleIds[..]);
      if r.Fail? {
        return;
      }
      db.Commit();
    }

    /** RemoveUsersFromRoles from BEGIN to COMMIT: an unknown user, an
        unknown role, a user not in one of the roles, or a delete that
        removes no row stops it; only full success commits. */
    method RevokeAll(appId: int, usernames: seq<string>, roleNames: seq<string>, now: nat) returns (r: Outcome<Exception>)
      requires db.Valid() && db.snapshot.None? && appId != 0
      modifies db
      ensures db.Valid()
      ensures r.Fail? ==> Kept(db) == old(db.tables)
      ensures r.Pass? ==> db.snapshot.None? && Revoked(old(db.tables), db.tables, appId, usernames, roleNames)
      ensures var missing := FirstZero(UserIds(old(db.tables), appId, usernames));
              missing.Some? ==> r == Fail(ProviderException("User not found: " + usernames[missing.value]))
      ensures var missing := FirstZero(RoleIds(old(db.tables), appId, roleNames));
              FirstZero(UserIds(old(db.tables), appId, usernames)).None? && missing.Some? ==>
                r == Fail(ProviderException("Role not found: " + roleNames[missing.value]))
      ensures r.Pass? <==> RevokeSucceeds(old(db.tables), appId, usernames, roleNames)
    {
      db.Begin();
      var userIds, usersFound := FindUsers(appId, usernames, now);
      if usersFound.Fail? {
        return usersFound;
      }
      var roleIds, rolesFound := FindRoles(appId, roleNames, "Role not found: ");
      if rolesFound.Fail? {
        return rolesFound;
      }
      r := CheckAllInRoles(usernames, roleNames, userIds[..], roleIds[..]);
      if r.Fail? {
        return;
      }
      r := DeletePairs(userIds[..], roleIds[..]);
      if r.Fail? {
        return;
      }
      db.Commit();
    }

    /** CreateRole after the application id: an existing name is refused;
        otherwise the role is inserted inside a transaction. */
    method InsertRoleRow(appId: int, roleName: string) returns (r: Outcome<Exception>)
      requires db.Valid() && db.snapshot.None?
      modifies db
      ensures db.Valid() && db.snapshot.None?
      ensures RoleIdIn(old(db.tables), appId, roleName) != 0 ==>
                r == Fail(ProviderException("Provider role already exists: " + roleName)) && db.tables == old(db.tables)
      ensures RoleIdIn(old(db.tables), appId, roleName) == 0 ==>
                r == Pass && db.tables == AddRole(old(db.tables), appId, roleName)
    {
      if RoleIdIn(db.tables, appId, roleName) != 0 {
        return Fail(ProviderException("Provider role already exists: " + roleName));
      }
      db.Begin();
      var inserted := db.Execute(InsertRole(appId, roleName));
      db.Commit();
      if inserted != 1 {
        assert false;
      }
      return Pass;
    }

    /** DeleteRole after the application id: false for an unknown role;
        with throwOnPopulatedRole, a role that still has members is
        refused; otherwise the role row is deleted inside a transaction and
        the answer is whether exactly one row went. */
    method DeleteRoleRow(appId: int, roleName: string, throwOnPopulatedRole: bool) returns (r: Result<bool, Exception>)
      requires db.Valid() && db.snapshot.None?
      modifies db
      ensures db.Valid() && db.snapshot.None?
      ensures var roleId := RoleIdIn(old(db.tables), appId, roleName);
              && (roleId == 0 ==> r == Ok(false) && db.tables == old(db.tables))
              && (roleId != 0 && throwOnPopulatedRole && RoleInUse(old(db.tables), roleId) ==>
                    r == Err(ProviderException("Role is not empty")) && db.tables == old(db.tables))
              && (roleId != 0 && !(throwOnPopulatedRole && RoleInUse(old(db.tables), roleId)) ==>
                    r == Ok(Affected(old(db.tables), DeleteRole(roleId)) == 1)
                    && db.tables == RemoveRole(old(db.tables), roleId))
    {
      var roleId := RoleIdIn(db.tables, appId, roleName);
      if roleId == 0 {
        return Ok(false);
      }
      if throwOnPopulatedRole && RoleInUse(db.tables, roleId) {
        return Err(ProviderException("Role is not empty"));
      }
      db.Begin();
      var deleted := db.Execute(DeleteRole(roleId));
      db.Commit();
      return Ok(deleted == 1);
    }

    /** AddUsersToRoles: on success the missing users exist and every named
        user is in every named role; on failure nothing but the
        application's row may have been added. */
    method AddUsersToRoles(usernames: seq<string>, roleNames: seq<string>, env: Environment, now: nat,
                           openSucceeds: bool)
      returns (r: Outcome<Exception>)
      requires Valid()
      modifies db, idCache, connections, connections.Holders()
      ensures Valid() && AppName() == old(AppName())
      ensures var withApp := WithApplication(old(db.tables));
              var appId := ApplicationIdIn(withApp, AppName());
              && (r.Pass? ==> Granted(withApp, db.tables, appId, usernames, roleNames, RoundToSeconds(now)))
              && (r.Fail? ==> db.tables == old(db.tables) || db.tables == withApp)
              && (r.Pass? ==> GrantSucceeds(withApp, appId, usernames, roleNames, RoundToSeconds(now)))
              && (GrantSucceeds(withApp, appId, usernames, roleNames, RoundToSeconds(now)) && r.Fail? ==>
                    r.error == OleDbException || r.error.PlainException?)
    {
      var connection := Acquire(db, connections, databaseFileName, env, now, openSucceeds);
      if connection.Err? {
        return Fail(connection.error);
      }
      r := GrantAndRelease(connection.value, usernames, roleNames, now);
    }

    /** AddUsersToRoles once the connection is held, up to its release. */
    method GrantAndRelease(holder: ConnectionHolder, usernames: seq<string>, roleNames: seq<string>, now: nat)
      returns (r: Outcome<Exception>)
      requires db.Valid() && db.snapshot.None? && idCache.Consistent(db.tables) && connections.InUse(holder)
      modifies db, idCache, holder
      ensures Valid() && AppName() == old(AppName())
      ensures var withApp := WithApplication(old(db.tables));
              var appId := ApplicationIdIn(withApp, AppName());
              && (r.Pass? ==> Granted(withApp, db.tables, appId, usernames, roleNames, RoundToSeconds(now)))
              && (r.Fail? ==> db.tables == withApp)
              && (r.Pass? <==> GrantSucceeds(withApp, appId, usernames, roleNames, RoundToSeconds(now)))
    {
      var appId := ResolveApplication(holder.createDate, now);
      r := GrantAll(appId, usernames, roleNames, now);
      Release(db, connections, holder);
    }

    /** RemoveUsersFromRoles: on success every named user has left every
        named role; on failure nothing but the application's row may have
        been added. */
    method RemoveUsersFromRoles(usernames: seq<string>, roleNames: seq<string>, env: Environment, now: nat,
                                openSucceeds: bool)
      returns (r: Outcome<Exception>)
      requires Valid()
      modifies db, idCache, connections, connections.Holders()
      ensures Valid() && AppName() == old(AppName())
      ensures var withApp := WithApplication(old(db.tables));
              var appId := ApplicationIdIn(withApp, AppName());
              && (r.Pass? ==> Revoked(withApp, db.tables, appId, usernames, roleNames))
              && (r.Fail? ==> db.tables == old(db.tables) || db.tables == withApp)
              && (r.Pass? ==> RevokeSucceeds(withApp, appId, usernames, roleNames))
              && (RevokeSucceeds(withApp, appId, usernames, roleNames) && r.Fail? ==>
                    r.error == OleDbException || r.error.PlainException?)
    {
      var connection := Acquire(db, connections, databaseFileName, env, now, openSucceeds);
      if connection.Err? {
        return Fail(connection.error);
      }
      r := RevokeAndRelease(connection.value, usernames, roleNames, now);
    }

    /** RemoveUsersFromRoles once the connection is held, up to its release. */
    method RevokeAndRelease(holder: ConnectionHolder, usernames: seq<string>, roleNames: seq<string>, now: nat)
      returns (r: Outcome<Exception>)
      requires db.Valid() && db.snapshot.None? && idCache.Consistent(db.tables) && connections.InUse(holder)
      modifies db, idCache, holder
      ensures Valid() && AppName() == old(AppName())
      ensures var withApp := WithApplication(old(db.tables));
              var appId := ApplicationIdIn(withApp, AppName());
              && (r.Pass? ==> Revoked(withApp, db.tables, appId, usernames, roleNames))
              && (r.Fail? ==> db.tables == withApp)
              && (r.Pass? <==> RevokeSucceeds(withApp, appId, usernames, roleNames))
    {
      var appId := ResolveApplication(holder.createDate, now);
      r := RevokeAll(appId, usernames, roleNames, now);
      Release(db, connections, holder);
    }

    /** CreateRole: an existing role is refused, any other is added. */
    method CreateRole(roleName: string, env: Environment, now: nat, openSucceeds: bool) returns (r: Outcome<Exception>)
      requires Valid()
      modifies db, idCache, connections, connections.Holders()
      ensures Valid() && AppName() == old(AppName())
      ensures var withApp := WithApplication(old(db.tables));
              var appId := ApplicationIdIn(withApp, AppName());
              && (r.Pass? ==> RoleIdIn(withApp, appId, roleName) == 0 && db.tables == AddRole(withApp, appId, roleName))
              && (r.Fail? ==> db.tables == old(db.tables) || db.tables == withApp)
              && (RoleIdIn(withApp, appId, roleName) != 0 ==> r.Fail?)
              && (r.Fail? ==> r == Fail(ProviderException("Provider role already exists: " + roleName))
                              || r.error == OleDbException || r.error.PlainException?)
              && (RoleIdIn(withApp, appId, roleName) == 0 && r.Fail? ==>
                    r.error == OleDbException || r.error.PlainException?)
    {
      var connection := Acquire(db, connections, databaseFileName, env, now, openSucceeds);
      if connection.Err? {
        return Fail(connection.error);
      }
      r := CreateAndRelease(connection.value, roleName, now);
    }

    /** CreateRole once the connection is held, up to its release. */
    method CreateAndRelease(holder: ConnectionHolder, roleName: string, now: nat) returns (r: Outcome<Exception>)
      requires db.Valid() && db.snapshot.None? && idCache.Consistent(db.tables) && connections.InUse(holder)
      modifies db, idCache, holder
      ensures Valid() && AppName() == old(AppName())
      ensures var withApp := WithApplication(old(db.tables));
              var appId := ApplicationIdIn(withApp, AppName());
              && (r.Pass? ==> RoleIdIn(withApp, appId, roleName) == 0 && db.tables == AddRole(withApp, appId, roleName))
              && (r.Fail? ==> RoleIdIn(withApp, appId, roleName) != 0 && db.tables == withApp)
              && (RoleIdIn(withApp, appId, roleName) != 0 ==>
                    r == Fail(ProviderException("Provider role already exists: " + roleName)))
    {
      var appId := ResolveApplication(holder.createDate, now);
      r := InsertRoleRow(appId, roleName);
      Release(db, connections, holder);
    }

    /** DeleteRole: false for an unknown role, a populated role refused
        when asked, otherwise the role row deleted. */
    method DeleteRoleNamed(roleName: string, throwOnPopulatedRole: bool, env: Environment, now: nat, openSucceeds: bool)
      returns (r: Result<bool, Exception>)
      requires Valid()
      modifies db, idCache, connections, connections.Holders()
      ensures Valid() && AppName() == old(AppName())
      ensures var withApp := WithApplication(old(db.tables));
              var roleId := RoleIdIn(withApp, ApplicationIdIn(withApp, AppName()), roleName);
              && (r.Ok? && roleId == 0 ==> !r.value && db.tables == withApp)
              && (r.Ok? && roleId != 0 ==>
                    r.value == (Affected(withApp, DeleteRole(roleId)) == 1) && db.tables == RemoveRole(withApp, roleId))
              && (r.Err? ==> db.tables == old(db.tables) || db.tables == withApp)
              && (roleId != 0 && throwOnPopulatedRole && RoleInUse(withApp, roleId) ==> r.Err?)
              && (r.Err? ==> (r.error == ProviderException("Role is not empty")
                              && roleId != 0 && throwOnPopulatedRole && RoleInUse(withApp, roleId))
                             || r.error == OleDbException || r.error.PlainException?)
    {
      var connection := Acquire(db, connections, databaseFileName, env, now, openSucceeds);
      if connection.Err? {
        return Err(connection.error);
      }
      r := DeleteAndRelease(connection.value, roleName, throwOnPopulatedRole, now);
    }

    /** DeleteRole once the connection is held, up to its release. */
    method DeleteAndRelease(holder: ConnectionHolder, roleName: string, throwOnPopulatedRole: bool, now: nat)
      returns (r: Result<bool, Exception>)
      requires db.Valid() && db.snapshot.None? && idCache.Consistent(db.tables) && connections.InUse(holder)
      modifies db, idCache, holder
      ensures Valid() && AppName() == old(AppName())
      ensures var withApp := WithApplication(old(db.tables));
              var roleId := RoleIdIn(withApp, ApplicationIdIn(withApp, AppName()), roleName);
              && (roleId == 0 ==> r == Ok(false) && db.tables == withApp)
              && (roleId != 0 && throwOnPopulatedRole && RoleInUse(withApp, roleId) ==>
                    r == Err(ProviderException("Role is not empty")) && db.tables == withApp)
              && (roleId != 0 && !(throwOnPopulatedRole && RoleInUse(withApp, roleId)) ==>
                    r == Ok(Affected(withApp, DeleteRole(roleId)) == 1) && db.tables == RemoveRole(withApp, roleId))
    {
      var appId := ResolveApplication(holder.createDate, now);
      r := DeleteRoleRow(appId, roleName, throwOnPopulatedRole);
      Release(db, connections, holder);
    }

    /** IsUserInRole: false for an empty user name without touching the
        store; otherwise whether the user and the role exist and are
        paired. */
    method IsUserInRole(username: string, roleName: string, env: Environment, now: nat, openSucceeds: bool)
      returns (r: Result<bool, Exception>)
      requires Valid()
      modifies db, idCache, connections, connections.Holders()
      ensures Valid() && AppName() == old(AppName())
      ensures username == [] ==> r == Ok(false) && db.tables == old(db.tables)
      ensures var withApp := WithApplication(old(db.tables));
              username != [] && r.Ok? ==>
                db.tables == withApp && r.value == UserInRole(withApp, ApplicationIdIn(withApp, AppName()), username, roleName)
      ensures r.Err? ==> db.tables == old(db.tables)
      ensures r.Err? ==> username != [] && (r.error == OleDbException || r.error.PlainException?)
    {
      if |username| < 1 {
        return Ok(false);
      }
      var connection := Acquire(db, connections, databaseFileName, env, now, openSucceeds);
      if connection.Err? {
        return Err(connection.error);
      }
      var paired := AskAndRelease(connection.value, username, roleName, now);
      return Ok(paired);
    }

    /** IsUserInRole once the connection is held, up to its release. */
    method AskAndRelease(holder: ConnectionHolder, username: string, roleName: string, now: nat) returns (paired: bool)
      requires db.Valid() && db.snapshot.None? && idCache.Consistent(db.tables) && connections.InUse(holder)
      modifies db, idCache, holder
      ensures Valid()
      ensures AppName() == old(AppName())
      ensures db.tables == WithApplication(old(db.tables))
      ensures paired == UserInRole(db.tables, ApplicationIdIn(db.tables, AppName()), username, roleName)
    {
      paired := Ask(holder.createDate, username, roleName, now);
      Release(db, connections, holder);
    }

    /** The statements of IsUserInRole: resolve the application, find the
        user without creating it, find the role, look the pair up. */
    method Ask(holderCreateDate: int, username: string, roleName: string, now: nat) returns (paired: bool)
      requires db.Valid() && db.snapshot.None? && idCache.Consistent(db.tables)
      modifies db, idCache
      ensures db.Valid() && db.snapshot.None? && idCache.Consistent(db.tables)
      ensures AppName() == old(AppName())
      ensures db.tables == WithApplication(old(db.tables))
      ensures paired == UserInRole(db.tables, ApplicationIdIn(db.tables, AppName()), username, roleName)
    {
      var appId := ResolveApplication(holderCreateDate, now);
      var userId := GetUserID(db, appId, Some(username), false, false, now);
      var roleId := RoleIdIn(db.tables, appId, roleName);
      paired := userId != 0 && roleId != 0 && (userId, roleId) in db.tables.usersInRoles;
    }
  }
}
