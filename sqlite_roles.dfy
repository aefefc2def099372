/** The SQLite role provider: the roles of an application and the
    (user, role) pairs of aspnet_UsersInRoles, kept in a SQLite database
    whose ids are Guid strings and whose names are matched in their
    ToLowerInvariant form. Every call runs on the connection of a
    transaction another provider stored in the HTTP context, or else on a
    fresh connection it disposes; a call that writes several rows begins
    its own transaction only when none is in progress. Lists are read by
    appending each name and a comma, dropping the last comma and splitting
    on commas. */
module SQLiteRoles {
  import opened Common
  import opened Text

  const MaxUserNameLength := 256
  const MaxRoleNameLength := 256
  const MaxApplicationNameLength := 256

  /** The exceptions the provider throws on its own account. */
  datatype Exception = ArgumentException(message: string) | ProviderException(message: string)

  /** SecUtility.ValidateParameter(ref value, checkForNull, checkIfEmpty,
      checkForCommas, maxSize), not part of this model: None when it
      refuses the value, else the value as it adjusted it. */
  type RoleNameValidator = (string, bool, bool, bool, int) -> Option<string>

  /** A row of aspnet_Roles; the application id is NULL when the role was
      created while the provider had no application id. */
  datatype RoleRow = RoleRow(roleName: string, loweredRoleName: string, applicationId: Option<string>)

  /** A row of aspnet_Users, as far as this provider reads it. */
  datatype UserRow = UserRow(userName: string, loweredUserName: string, applicationId: Option<string>)

  /** aspnet_Applications (name to id), aspnet_Roles and aspnet_Users by
      their ids, and aspnet_UsersInRoles as (UserId, RoleId) pairs. */
  datatype RoleTables = RoleTables(
    applications: map<string, string>,
    roles: map<string, RoleRow>,
    users: map<string, UserRow>,
    usersInRoles: set<(string, string)>)

  // ----- The HTTP context and the connection it may carry -----

  /** HttpContext.Current: none outside a web request, else the connection
      string of the transaction stored under "SQLiteTran", if any. */
  datatype HttpContext = NoHttpContext | HttpContext(storedTransaction: Option<string>)

  /** IsTransactionInProgress: a transaction is stored in the context and
      runs on a connection with the provider's connection string. */
  predicate IsTransactionInProgress(context: HttpContext, connectionString: string)
  {
    context.HttpContext? && context.storedTransaction == Some(connectionString)
  }

  /** The connection a call runs on. */
  datatype Connection = TransactionConnection | FreshConnection

  /** GetDBConnectionForRole: the stored transaction's connection when its
      connection string matches, else a fresh one. The call disposes its
      connection exactly when no transaction is in progress, so the
      connection it disposes is always one it created. */
  function ConnectionFor(context: HttpContext, connectionString: string): (cn: Connection)
    ensures cn.TransactionConnection? <==> IsTransactionInProgress(context, connectionString)
  {
    if context.HttpContext? && context.storedTransaction.Some?
       && context.storedTransaction.value == connectionString
    then TransactionConnection
    else FreshConnection
  }

  // ----- Lists read as comma-joined strings -----

  /** What the list operations return for the names read: each followed
      by a comma, the last comma dropped, split on commas; no names give
      the empty array. */
  function Listed(rows: seq<string>): seq<string>
  {
    var joined := Terminated(rows, ',');
    if |joined| > 0 then Split(joined[..|joined| - 1], ',') else []
  }

  /** Listing gives back exactly the names read when none holds a comma,
      nothing for no names, and something for some names. */
  lemma {:induction false} ListedRoundTrip(rows: seq<string>)
    ensures rows == [] ==> Listed(rows) == []
    ensures rows != [] ==> |Listed(rows)| >= 1
    ensures Free(rows, ',') ==> Listed(rows) == rows
  {
    if rows != [] {
      var n := |rows|;
      var init := rows[..n - 1];
      assert rows[..n][..n - 1] == init;
      var joined := Terminated(rows, ',');
      assert joined == Terminated(init, ',') + rows[n - 1] + [','];
      assert joined[..|joined| - 1] == Terminated(init, ',') + rows[n - 1];
      if Free(rows, ',') {
        assert Free(init, ',') by {
          forall k | 0 <= k < n - 1
            ensures ',' !in init[k]
          {
            assert init[k] == rows[k];
          }
        }
        SplitTerminated(init, rows[n - 1], ',');
        assert init + [rows[n - 1]] == rows;
      }
    }
  }

  // ----- The comma check on role and user names -----

  /** The check as the code writes it: a comma at an index above 0. */
  predicate CommaRefusedAsWritten(name: string)
  {
    IndexOf(name, ',') > 0
  }

  /** The check as intended: a comma anywhere. */
  predicate CommaRefused(name: string)
  {
    ',' in name
  }

  /** The written check misses exactly the names that start with a comma. */
  lemma CommaChecksDiffer(name: string)
    ensures CommaRefusedAsWritten(name) <==> CommaRefused(name) && name[0] != ','
  {
  }

  /** A role named ",admin" passes the written check, and a role list that
      holds it comes back as two names, "" and "admin". */
  lemma LeadingCommaRoleListsAsTwo()
    ensures !CommaRefusedAsWritten(",admin")
    ensures Listed([",admin"]) == ["", "admin"]
  {
    NoCommaSplitsToItself("admin");
    var name := ",admin";
    assert IndexOf(name, ',') == 0;
    assert Terminated([name], ',') == name + [','] by {
      assert [name][..0] == [] && [name][0] == name;
    }
    assert (name + [','])[..|name|] == name;
    assert name == [] + [','] + "admin";
    SplitFront([], "admin", ',');
  }

  lemma NoCommaSplitsToItself(name: string)
    requires !CommaRefused(name)
    ensures Split(name, ',') == [name]
  {
  }

  /** A name the intended check lets through is listed as itself. */
  lemma AcceptedNameListsAsItself(name: string)
    requires !CommaRefused(name)
    ensures Listed([name]) == [name]
  {
    ListedRoundTrip([name]);
  }

  // ----- Matching rows by lowered name and application -----

  /** SQL equality of application ids: NULL equals nothing. */
  predicate SameId(stored: Option<string>, param: Option<string>)
  {
    stored.Some? && stored == param
  }

  /** GetApplicationId: the id stored for the name, NULL when there is none. */
  function ApplicationIdOf(t: RoleTables, appName: string): Option<string>
  {
    if appName in t.applications then Some(t.applications[appName]) else None
  }

  /** The lowered forms of some names. */
  function Lowered(names: seq<string>): set<string>
  {
    set k | 0 <= k < |names| :: ToLower(names[k])
  }

  predicate UserNamed(row: UserRow, appId: Option<string>, lowered: set<string>)
  {
    SameId(row.applicationId, appId) && row.loweredUserName in lowered
  }

  predicate RoleNamed(row: RoleRow, appId: Option<string>, lowered: set<string>)
  {
    SameId(row.applicationId, appId) && row.loweredRoleName in lowered
  }

  /** The (UserId, RoleId) pairs of an application's users and roles with
      the given lowered names: what the INSERT ... SELECT of
      AddUsersToRoles produces and what RemoveUsersFromRoles deletes. */
  function Pairs(users: map<string, UserRow>, roles: map<string, RoleRow>, appId: Option<string>,
                 userNames: set<string>, roleNames: set<string>): set<(string, string)>
  {
    set u, r | u in users && r in roles && UserNamed(users[u], appId, userNames)
                 && RoleNamed(roles[r], appId, roleNames) :: (u, r)
  }

  /** RoleExists: a role of the application has the lowered name. */
  predicate HasRole(t: RoleTables, appId: Option<string>, roleName: string)
  {
    exists r :: r in t.roles && RoleNamed(t.roles[r], appId, {ToLower(roleName)})
  }

  /** A user of the application has the lowered name. */
  predicate HasUser(t: RoleTables, appId: Option<string>, userName: string)
  {
    exists u :: u in t.users && UserNamed(t.users[u], appId, {ToLower(userName)})
  }

  /** IsUserInRole: a membership pairs a user and a role of the
      application with the two lowered names. */
  predicate IsMember(t: RoleTables, appId: Option<string>, userName: string, roleName: string)
  {
    t.usersInRoles * Pairs(t.users, t.roles, appId, {ToLower(userName)}, {ToLower(roleName)}) != {}
  }

  /** Without an application id nothing matches. */
  lemma NullApplicationMatchesNothing(t: RoleTables, userName: string, roleName: string)
    ensures !HasRole(t, None, roleName) && !HasUser(t, None, userName)
    ensures !IsMember(t, None, userName, roleName)
  {
    assert Pairs(t.users, t.roles, None, {ToLower(userName)}, {ToLower(roleName)}) == {};
  }

  lemma LoweredSnoc(names: seq<string>, i: nat)
    requires i < |names|
    ensures Lowered(names[..i + 1]) == Lowered(names[..i]) + {ToLower(names[i])}
  {
    var a := names[..i + 1];
    var b := names[..i];
    forall x | x in Lowered(a)
      ensures x in Lowered(b) + {ToLower(names[i])}
    {
      var k :| 0 <= k < |a| && x == ToLower(a[k]);
      if k < i {
        assert b[k] == a[k];
      }
    }
    forall x | x in Lowered(b)
      ensures x in Lowered(a)
    {
      var k :| 0 <= k < |b| && x == ToLower(b[k]);
      assert a[k] == b[k];
    }
    assert a[i] == names[i];
  }

  lemma PairsUnionUsers(users: map<string, UserRow>, roles: map<string, RoleRow>, appId: Option<string>,
                        u1: set<string>, u2: set<string>, roleNames: set<string>)
    ensures Pairs(users, roles, appId, u1 + u2, roleNames)
            == Pairs(users, roles, appId, u1, roleNames) + Pairs(users, roles, appId, u2, roleNames)
  {
  }

  lemma PairsUnionRoles(users: map<string, UserRow>, roles: map<string, RoleRow>, appId: Option<string>,
                        userNames: set<string>, r1: set<string>, r2: set<string>)
    ensures Pairs(users, roles, appId, userNames, r1 + r2)
            == Pairs(users, roles, appId, userNames, r1) + Pairs(users, roles, appId, userNames, r2)
  {
  }

  // ----- AddUsersToRoles and RemoveUsersFromRoles -----

  /** One INSERT ... SELECT of AddUsersToRoles. */
  function InsertMembers(t: RoleTables, appId: Option<string>, loweredUser: string, loweredRole: string): RoleTables
  {
    t.(usersInRoles := t.usersInRoles + Pairs(t.users, t.roles, appId, {loweredUser}, {loweredRole}))
  }

  /** One DELETE of RemoveUsersFromRoles. */
  function DeleteMembers(t: RoleTables, appId: Option<string>, loweredUser: string, loweredRole: string): RoleTables
  {
    t.(usersInRoles := t.usersInRoles - Pairs(t.users, t.roles, appId, {loweredUser}, {loweredRole}))
  }

  /** All the inserts of AddUsersToRoles together. */
  function Grant(t: RoleTables, appId: Option<string>, userNames: set<string>, roleNames: set<string>): RoleTables
  {
    t.(usersInRoles := t.usersInRoles + Pairs(t.users, t.roles, appId, userNames, roleNames))
  }

  /** All the deletes of RemoveUsersFromRoles together. */
  function Revoke(t: RoleTables, appId: Option<string>, userNames: set<string>, roleNames: set<string>): RoleTables
  {
    t.(usersInRoles := t.usersInRoles - Pairs(t.users, t.roles, appId, userNames, roleNames))
  }

  /** After AddUsersToRoles a user is in a role exactly when it was
      before, or when both names were requested and the application has
      such a user and such a role: a requested user with no row gains
      nothing. */
  lemma {:induction false} GrantMakesMembers(t: RoleTables, appId: Option<string>, usernames: seq<string>,
                                             roleNames: seq<string>, userName: string, roleName: string)
    ensures IsMember(Grant(t, appId, Lowered(usernames), Lowered(roleNames)), appId, userName, roleName)
            <==> IsMember(t, appId, userName, roleName)
                 || (ToLower(userName) in Lowered(usernames) && ToLower(roleName) in Lowered(roleNames)
                     && HasUser(t, appId, userName) && HasRole(t, appId, roleName))
  {
    var lu, lr := ToLower(userName), ToLower(roleName);
    var granted := Pairs(t.users, t.roles, appId, Lowered(usernames), Lowered(roleNames));
    var these := Pairs(t.users, t.roles, appId, {lu}, {lr});
    var g := Grant(t, appId, Lowered(usernames), Lowered(roleNames));
    if lu in Lowered(usernames) && lr in Lowered(roleNames) && HasUser(t, appId, userName) && HasRole(t, appId, roleName) {
      var u :| u in t.users && UserNamed(t.users[u], appId, {lu});
      var r :| r in t.roles && RoleNamed(t.roles[r], appId, {lr});
      assert (u, r) in these && (u, r) in granted;
      assert (u, r) in g.usersInRoles * these;
    }
    if IsMember(g, appId, userName, roleName) && !IsMember(t, appId, userName, roleName) {
      var p :| p in g.usersInRoles * these;
      assert p in granted;
      assert p.0 in t.users && UserNamed(t.users[p.0], appId, Lowered(usernames));
      assert p.1 in t.roles && RoleNamed(t.roles[p.1], appId, Lowered(roleNames));
    }
    if IsMember(t, appId, userName, roleName) {
      var p :| p in t.usersInRoles * these;
      assert p in g.usersInRoles * these;
    }
  }

  /** After RemoveUsersFromRoles a user is in a role exactly when it was
      before and the two names were not both requested. */
  lemma {:induction false} RevokeEndsMembers(t: RoleTables, appId: Option<string>, usernames: seq<string>,
                                             roleNames: seq<string>, userName: string, roleName: string)
    ensures IsMember(Revoke(t, appId, Lowered(usernames), Lowered(roleNames)), appId, userName, roleName)
            <==> IsMember(t, appId, userName, roleName)
                 && !(ToLower(userName) in Lowered(usernames) && ToLower(roleName) in Lowered(roleNames))
  {
    var lu, lr := ToLower(userName), ToLower(roleName);
    var revoked := Pairs(t.users, t.roles, appId, Lowered(usernames), Lowered(roleNames));
    var these := Pairs(t.users, t.roles, appId, {lu}, {lr});
    var v := Revoke(t, appId, Lowered(usernames), Lowered(roleNames));
    if lu in Lowered(usernames) && lr in Lowered(roleNames) {
      forall p | p in these
        ensures p in revoked
      {
      }
      assert v.usersInRoles * these == {};
    } else if IsMember(t, appId, userName, roleName) {
      var p :| p in t.usersInRoles * these;
      assert p !in revoked;
      assert p in v.usersInRoles * these;
    }
  }

  /** When none of the requested users is in any requested role, as
      AddUsersToRoles checks first, removing them again gives back the
      memberships there were. */
  lemma {:induction false} RevokeUndoesGrant(t: RoleTables, appId: Option<string>, usernames: seq<string>,
                                             roleNames: seq<string>)
    requires forall i, j :: 0 <= i < |usernames| && 0 <= j < |roleNames| ==>
               !IsMember(t, appId, usernames[i], roleNames[j])
    ensures Revoke(Grant(t, appId, Lowered(usernames), Lowered(roleNames)), appId, Lowered(usernames), Lowered(roleNames)) == t
  {
    var granted := Pairs(t.users, t.roles, appId, Lowered(usernames), Lowered(roleNames));
    forall p | p in granted
      ensures p !in t.usersInRoles
    {
      assert p.0 in t.users && UserNamed(t.users[p.0], appId, Lowered(usernames));
      assert p.1 in t.roles && RoleNamed(t.roles[p.1], appId, Lowered(roleNames));
      var i :| 0 <= i < |usernames| && t.users[p.0].loweredUserName == ToLower(usernames[i]);
      var j :| 0 <= j < |roleNames| && t.roles[p.1].loweredRoleName == ToLower(roleNames[j]);
      var these := Pairs(t.users, t.roles, appId, {ToLower(usernames[i])}, {ToLower(roleNames[j])});
      assert (p.0, p.1) in these;
      assert t.usersInRoles * these == {} by {
        assert !IsMember(t, appId, usernames[i], roleNames[j]);
      }
      assert p !in t.usersInRoles * these;
    }
    assert (t.usersInRoles + granted) - granted == t.usersInRoles;
  }

  predicate AllRolesExist(t: RoleTables, appId: Option<string>, roleNames: seq<string>)
  {
    forall k :: 0 <= k < |roleNames| ==> HasRole(t, appId, roleNames[k])
  }

  predicate InAnyRole(t: RoleTables, appId: Option<string>, userName: string, roleNames: seq<string>)
  {
    exists k :: 0 <= k < |roleNames| && IsMember(t, appId, userName, roleNames[k])
  }

  predicate InAllRoles(t: RoleTables, appId: Option<string>, userName: string, roleNames: seq<string>)
  {
    forall k :: 0 <= k < |roleNames| ==> IsMember(t, appId, userName, roleNames[k])
  }

  /** The per-user checks of AddUsersToRoles, user by user: a comma after
      the first character (the written check), then a requested role the
      user is already in. */
  function NewMemberChecks(t: RoleTables, appId: Option<string>, usernames: seq<string>, roleNames: seq<string>)
    : Outcome<Exception>
    decreases |usernames|
  {
    if usernames == [] then Pass
    else if CommaRefusedAsWritten(usernames[0]) then Fail(ArgumentException("User names cannot contain commas."))
    else if InAnyRole(t, appId, usernames[0], roleNames) then Fail(ProviderException("User is already in role."))
    else NewMemberChecks(t, appId, usernames[1..], roleNames)
  }

  /** The per-user checks as intended: a comma anywhere is refused. */
  function NewMemberChecksIntended(t: RoleTables, appId: Option<string>, usernames: seq<string>,
                                   roleNames: seq<string>): Outcome<Exception>
    decreases |usernames|
  {
    if usernames == [] then Pass
    else if CommaRefused(usernames[0]) then Fail(ArgumentException("User names cannot contain commas."))
    else if InAnyRole(t, appId, usernames[0], roleNames) then Fail(ProviderException("User is already in role."))
    else NewMemberChecksIntended(t, appId, usernames[1..], roleNames)
  }

  /** The user name ",bob" passes the written check when bob is in none of
      the roles, and the role's member list then shows it as "" and "bob". */
  lemma LeadingCommaUserPasses(t: RoleTables, appId: Option<string>, roleNames: seq<string>)
    requires !InAnyRole(t, appId, ",bob", roleNames)
    ensures NewMemberChecks(t, appId, [",bob"], roleNames).Pass?
    ensures Listed([",bob"]) == ["", "bob"]
  {
    var name := ",bob";
    assert IndexOf(name, ',') == 0;
    assert [name][1..] == [];
    NoCommaSplitsToItself("bob");
    assert Terminated([name], ',') == name + [','] by {
      assert [name][..0] == [] && [name][0] == name;
    }
    assert (name + [','])[..|name|] == name;
    assert name == [] + [','] + "bob";
    SplitFront([], "bob", ',');
  }

  /** Every user the intended checks let through is listed as itself by
      the member lists of the roles. */
  lemma {:induction false} IntendedNewMembersListAsThemselves(t: RoleTables, appId: Option<string>,
                                                             usernames: seq<string>, roleNames: seq<string>)
    ensures NewMemberChecksIntended(t, appId, usernames, roleNames).Pass? ==>
              forall i :: 0 <= i < |usernames| ==> Listed([usernames[i]]) == [usernames[i]]
    decreases |usernames|
  {
    if usernames != [] && NewMemberChecksIntended(t, appId, usernames, roleNames).Pass? {
      IntendedNewMembersListAsThemselves(t, appId, usernames[1..], roleNames);
      forall i | 0 <= i < |usernames|
        ensures Listed([usernames[i]]) == [usernames[i]]
      {
        if i == 0 {
          AcceptedNameListsAsItself(usernames[0]);
        } else {
          assert usernames[1..][i - 1] == usernames[i];
        }
      }
    }
  }

  /** Everything AddUsersToRoles checks before it writes: every role
      exists, then the per-user checks. */
  function AddUsersChecks(t: RoleTables, appId: Option<string>, usernames: seq<string>, roleNames: seq<string>)
    : Outcome<Exception>
  {
    if !AllRolesExist(t, appId, roleNames) then Fail(ProviderException("Role name not found."))
    else NewMemberChecks(t, appId, usernames, roleNames)
  }

  lemma {:induction false} NewMemberChecksSpec(t: RoleTables, appId: Option<string>, usernames: seq<string>,
                                               roleNames: seq<string>)
    ensures NewMemberChecks(t, appId, usernames, roleNames).Pass?
            <==> forall i :: 0 <= i < |usernames| ==>
                   !CommaRefusedAsWritten(usernames[i]) && !InAnyRole(t, appId, usernames[i], roleNames)
    decreases |usernames|
  {
    if usernames != [] {
      NewMemberChecksSpec(t, appId, usernames[1..], roleNames);
      forall i | 1 <= i < |usernames|
        ensures usernames[1..][i - 1] == usernames[i]
      {
      }
    }
  }

  /** AddUsersToRoles writes only when every role exists, no user name
      holds a comma after its first character and no requested user is in
      a requested role; and
      then removing the same users again undoes it. */
  lemma AddUsersChecksSpec(t: RoleTables, appId: Option<string>, usernames: seq<string>, roleNames: seq<string>)
    ensures AddUsersChecks(t, appId, usernames, roleNames).Pass?
            <==> AllRolesExist(t, appId, roleNames)
                 && (forall i :: 0 <= i < |usernames| ==> !CommaRefusedAsWritten(usernames[i]))
                 && (forall i, j :: 0 <= i < |usernames| && 0 <= j < |roleNames| ==>
                       !IsMember(t, appId, usernames[i], roleNames[j]))
    ensures AddUsersChecks(t, appId, usernames, roleNames).Pass? ==>
              Revoke(Grant(t, appId, Lowered(usernames), Lowered(roleNames)), appId, Lowered(usernames), Lowered(roleNames)) == t
  {
    NewMemberChecksSpec(t, appId, usernames, roleNames);
    if AddUsersChecks(t, appId, usernames, roleNames).Pass? {
      forall i, j | 0 <= i < |usernames| && 0 <= j < |roleNames|
        ensures !IsMember(t, appId, usernames[i], roleNames[j])
      {
        assert !InAnyRole(t, appId, usernames[i], roleNames);
      }
      RevokeUndoesGrant(t, appId, usernames, roleNames);
    }
  }

  /** Everything RemoveUsersFromRoles checks before it writes. */
  function RemoveUsersChecks(t: RoleTables, appId: Option<string>, usernames: seq<string>, roleNames: seq<string>)
    : (r: Outcome<Exception>)
    ensures r.Pass? <==> AllRolesExist(t, appId, roleNames)
                         && forall i, j :: 0 <= i < |usernames| && 0 <= j < |roleNames| ==>
                              IsMember(t, appId, usernames[i], roleNames[j])
  {
    if !AllRolesExist(t, appId, roleNames) then Fail(ProviderException("Role name not found."))
    else if exists i :: 0 <= i < |usernames| && !InAllRoles(t, appId, usernames[i], roleNames)
    then Fail(ProviderException("User is not in role."))
    else Pass
  }

  // ----- CreateRole and DeleteRole -----

  /** The checks of CreateRole, in order, with the comma check as written:
      a name that starts with a comma passes it. */
  function CreateRoleChecks(t: RoleTables, appId: Option<string>, validate: RoleNameValidator, roleName: string)
    : (r: Outcome<Exception>)
    ensures r.Pass? <==> !CommaRefusedAsWritten(roleName) && !HasRole(t, appId, roleName)
                         && validate(roleName, true, true, false, MaxRoleNameLength).Some?
    ensures CommaRefusedAsWritten(roleName) ==> r == Fail(ArgumentException("Role names cannot contain commas."))
  {
    if CommaRefusedAsWritten(roleName) then Fail(ArgumentException("Role names cannot contain commas."))
    else if HasRole(t, appId, roleName) then Fail(ProviderException("Role name already exists."))
    else if validate(roleName, true, true, false, MaxRoleNameLength).None?
    then Fail(ProviderException("The role name is too long: it must not exceed 256 chars in length."))
    else Pass
  }

  /** The INSERT of CreateRole. */
  function AddRoleRow(t: RoleTables, roleId: string, roleName: string, appId: Option<string>): RoleTables
  {
    t.(roles := t.roles[roleId := RoleRow(roleName, ToLower(roleName), appId)])
  }

  /** The roles of an application with a lowered name. */
  function RolesNamed(roles: map<string, RoleRow>, appId: Option<string>, lowered: string): set<string>
  {
    set r | r in roles && RoleNamed(roles[r], appId, {lowered})
  }

  /** The roles of every application with a lowered name. */
  function RolesNamedAnywhere(roles: map<string, RoleRow>, lowered: string): set<string>
  {
    set r | r in roles && roles[r].loweredRoleName == lowered
  }

  /** The first DELETE of DeleteRole as the code writes it: memberships of
      every role with the lowered name, whatever its application. */
  function DeleteMembershipsAsWritten(t: RoleTables, lowered: string): RoleTables
  {
    t.(usersInRoles := set p | p in t.usersInRoles && p.1 !in RolesNamedAnywhere(t.roles, lowered))
  }

  /** The first DELETE as intended: memberships of the application's role. */
  function DeleteMemberships(t: RoleTables, appId: Option<string>, lowered: string): RoleTables
  {
    t.(usersInRoles := set p | p in t.usersInRoles && p.1 !in RolesNamed(t.roles, appId, lowered))
  }

  /** The second DELETE: the application's role rows with the name. */
  function DeleteRoleRows(t: RoleTables, appId: Option<string>, lowered: string): RoleTables
  {
    t.(roles := map r | r in t.roles && r !in RolesNamed(t.roles, appId, lowered) :: t.roles[r])
  }

  function DropRoleAsWritten(t: RoleTables, appId: Option<string>, roleName: string): RoleTables
  {
    DeleteRoleRows(DeleteMembershipsAsWritten(t, ToLower(roleName)), appId, ToLower(roleName))
  }

  function DropRole(t: RoleTables, appId: Option<string>, roleName: string): RoleTables
  {
    DeleteRoleRows(DeleteMemberships(t, appId, ToLower(roleName)), appId, ToLower(roleName))
  }

  /** Two applications with a role "Admin" each; bob belongs to the role
      of application "b". */
  function TwoAdmins(): RoleTables
  {
    RoleTables(
      map["A" := "a", "B" := "b"],
      map["r1" := RoleRow("Admin", "admin", Some("a")), "r2" := RoleRow("Admin", "admin", Some("b"))],
      map["u2" := UserRow("bob", "bob", Some("b"))],
      {("u2", "r2")})
  }

  /** Deleting "Admin" in application "a" as the code does it takes bob
      out of application "b"'s "Admin" role. */
  lemma DeleteRoleReachesOtherApplication()
    ensures IsMember(TwoAdmins(), Some("b"), "bob", "Admin")
    ensures !IsMember(DropRoleAsWritten(TwoAdmins(), Some("a"), "Admin"), Some("b"), "bob", "Admin")
  {
    var t := TwoAdmins();
    assert ToLower("Admin") == "admin";
    assert ToLower("bob") == "bob";
    assert ("u2", "r2") in t.usersInRoles * Pairs(t.users, t.roles, Some("b"), {"bob"}, {"admin"});
    var d := DropRoleAsWritten(t, Some("a"), "Admin");
    assert "r2" in RolesNamedAnywhere(t.roles, "admin");
    assert d.usersInRoles == {};
  }

  /** The intended DeleteRole leaves the role unknown and no membership
      of it behind, and leaves every other application's roles and
      memberships as they were. */
  lemma {:induction false} DropRoleSpec(t: RoleTables, appId: Option<string>, roleName: string,
                                        other: Option<string>, userName: string, otherRole: string)
    ensures !HasRole(DropRole(t, appId, roleName), appId, roleName)
    ensures forall p :: p in DropRole(t, appId, roleName).usersInRoles ==>
              p in t.usersInRoles && p.1 !in RolesNamed(t.roles, appId, ToLower(roleName))
    ensures other != appId ==>
              (HasRole(DropRole(t, appId, roleName), other, otherRole) <==> HasRole(t, other, otherRole))
    ensures other != appId ==>
              (IsMember(DropRole(t, appId, roleName), other, userName, otherRole)
               <==> IsMember(t, other, userName, otherRole))
  {
    var l := ToLower(roleName);
    var d := DropRole(t, appId, roleName);
    var gone := RolesNamed(t.roles, appId, l);
    assert d.roles == map r | r in t.roles && r !in gone :: t.roles[r];
    if other != appId {
      if HasRole(t, other, otherRole) {
        var r :| r in t.roles && RoleNamed(t.roles[r], other, {ToLower(otherRole)});
        assert r !in gone;
        assert r in d.roles;
      }
      var these := Pairs(t.users, t.roles, other, {ToLower(userName)}, {ToLower(otherRole)});
      assert Pairs(d.users, d.roles, other, {ToLower(userName)}, {ToLower(otherRole)}) == these by {
        forall p | p in these
          ensures p.1 in d.roles && d.roles[p.1] == t.roles[p.1]
        {
          assert p.1 !in gone;
        }
      }
      if IsMember(t, other, userName, otherRole) {
        var p :| p in t.usersInRoles * these;
        assert p.1 !in gone;
        assert p in d.usersInRoles * these;
      }
    }
  }

  /** DeleteRole as the code writes it: the role is gone from its
      application, the memberships left are exactly those of roles with
      another lowered name in any application, and the role rows of other
      applications stay. */
  lemma {:induction false} DropRoleAsWrittenSpec(t: RoleTables, appId: Option<string>, roleName: string,
                                                 other: Option<string>, otherRole: string)
    ensures !HasRole(DropRoleAsWritten(t, appId, roleName), appId, roleName)
    ensures forall p :: p in DropRoleAsWritten(t, appId, roleName).usersInRoles <==>
              p in t.usersInRoles && p.1 !in RolesNamedAnywhere(t.roles, ToLower(roleName))
    ensures other != appId ==>
              (HasRole(DropRoleAsWritten(t, appId, roleName), other, otherRole) <==> HasRole(t, other, otherRole))
  {
    var l := ToLower(roleName);
    var m := DeleteMembershipsAsWritten(t, l);
    var d := DropRoleAsWritten(t, appId, roleName);
    var gone := RolesNamed(m.roles, appId, l);
    assert d.roles == map r | r in t.roles && r !in gone :: t.roles[r];
    if other != appId && HasRole(t, other, otherRole) {
      var r :| r in t.roles && RoleNamed(t.roles[r], other, {ToLower(otherRole)});
      assert r !in gone;
      assert r in d.roles;
    }
  }

  /** A new role is found by its name afterwards, and deleting it again
      gives back the tables there were when no role of the application
      had its name and no membership belonged to a role of that name in
      any application (the written delete takes those too). */
  lemma {:induction false} CreateThenDrop(t: RoleTables, roleId: string, roleName: string, appId: Option<string>)
    requires appId.Some?
    requires roleId !in t.roles
    requires forall p :: p in t.usersInRoles ==> p.1 != roleId && p.1 !in RolesNamedAnywhere(t.roles, ToLower(roleName))
    requires !HasRole(t, appId, roleName)
    ensures HasRole(AddRoleRow(t, roleId, roleName, appId), appId, roleName)
    ensures DropRoleAsWritten(AddRoleRow(t, roleId, roleName, appId), appId, roleName) == t
  {
    var l := ToLower(roleName);
    var a := AddRoleRow(t, roleId, roleName, appId);
    assert roleId in a.roles && RoleNamed(a.roles[roleId], appId, {l});
    var gone := RolesNamed(a.roles, appId, l);
    assert gone == {roleId} by {
      forall r | r in a.roles && r != roleId
        ensures !RoleNamed(a.roles[r], appId, {l})
      {
        assert a.roles[r] == t.roles[r];
      }
    }
    assert RolesNamedAnywhere(a.roles, l) == RolesNamedAnywhere(t.roles, l) + {roleId};
    var d := DropRoleAsWritten(a, appId, roleName);
    assert d.usersInRoles == t.usersInRoles;
    forall r
      ensures r in d.roles <==> r in t.roles
      ensures r in d.roles ==> d.roles[r] == t.roles[r]
    {
    }
    assert d.roles == t.roles;
  }

  // ----- Lists -----

  /** Whether a sequence lists each element of a set exactly once, the
      order rows come out of a reader in. */
  predicate Enumerates<T>(order: seq<T>, s: set<T>)
  {
    Distinct(order) && (forall k :: 0 <= k < |order| ==> order[k] in s) && (forall x :: x in s ==> x in order)
  }

  /** An enumeration is empty exactly when the set is. */
  lemma EnumeratesEmpty<T>(order: seq<T>, s: set<T>)
    requires Enumerates(order, s)
    ensures order == [] <==> s == {}
  {
    if order != [] {
      assert order[0] in s;
    }
  }

  function NameOfRole(t: RoleTables, id: string): string
  {
    if id in t.roles then t.roles[id].roleName else ""
  }

  function NameOfUser(t: RoleTables, id: string): string
  {
    if id in t.users then t.users[id].userName else ""
  }

  /** The role ids GetAllRoles reads. */
  function RolesOf(t: RoleTables, appId: Option<string>): set<string>
  {
    set r | r in t.roles && SameId(t.roles[r].applicationId, appId)
  }

  /** The memberships GetUsersInRole reads: the role is the application's
      role with the name; the user is joined by id alone. */
  function MembersOf(t: RoleTables, appId: Option<string>, roleName: string): set<(string, string)>
  {
    set p | p in t.usersInRoles && p.0 in t.users && p.1 in t.roles
              && RoleNamed(t.roles[p.1], appId, {ToLower(roleName)})
  }

  /** The memberships GetRolesForUser reads: the user is the
      application's user with the name; the role is joined by id alone. */
  function MembershipsOf(t: RoleTables, appId: Option<string>, userName: string): set<(string, string)>
  {
    set p | p in t.usersInRoles && p.0 in t.users && p.1 in t.roles
              && UserNamed(t.users[p.0], appId, {ToLower(userName)})
  }

  function RoleNamesOf(t: RoleTables, order: seq<string>): (r: seq<string>)
    ensures |r| == |order|
    ensures forall k :: 0 <= k < |order| ==> r[k] == NameOfRole(t, order[k])
  {
    seq(|order|, k requires 0 <= k < |order| => NameOfRole(t, order[k]))
  }

  function MemberNamesOf(t: RoleTables, order: seq<(string, string)>): (r: seq<string>)
    ensures |r| == |order|
    ensures forall k :: 0 <= k < |order| ==> r[k] == NameOfUser(t, order[k].0)
  {
    seq(|order|, k requires 0 <= k < |order| => NameOfUser(t, order[k].0))
  }

  function MembershipRoleNamesOf(t: RoleTables, order: seq<(string, string)>): (r: seq<string>)
    ensures |r| == |order|
    ensures forall k :: 0 <= k < |order| ==> r[k] == NameOfRole(t, order[k].1)
  {
    seq(|order|, k requires 0 <= k < |order| => NameOfRole(t, order[k].1))
  }

  // ----- The database and the provider -----

  /** The provider's connection bookkeeping: connections it created and
      has not disposed, whether a transaction it began is still open, and
      how many transactions it began and committed. */
  datatype Ledger = Ledger(freshConnections: nat, ownTransactionOpen: bool, begun: nat, committed: nat)
  {
    /** After a call that disposed every connection it created and began
        and committed `owned` transactions. */
    function Through(owned: nat): Ledger
    {
      this.(begun := begun + owned, committed := committed + owned)
    }
  }

  class RoleDatabase {
    var tables: RoleTables
    var ledger: Ledger

    constructor (t: RoleTables)
      ensures tables == t && ledger == Ledger(0, false, 0, 0)
    {
      tables := t;
      ledger := Ledger(0, false, 0, 0);
    }
  }

  /** The provider; the application name and id are static in the code,
      fields here. */
  class SQLiteRoleProvider {
    var applicationName: string
    var applicationId: Option<string>
    const connectionString: string
    const db: RoleDatabase

    /** Between calls the provider has no transaction of its own open. */
    predicate Valid()
      reads db
    {
      !db.ledger.ownTransactionOpen
    }

    constructor (database: RoleDatabase, connectionString: string, applicationName: string, applicationId: Option<string>)
      requires !database.ledger.ownTransactionOpen
      ensures Valid()
      ensures db == database && this.connectionString == connectionString
      ensures this.applicationName == applicationName && this.applicationId == applicationId
    {
      db := database;
      this.connectionString := connectionString;
      this.applicationName := applicationName;
      this.applicationId := applicationId;
    }

    /** 1 when a call begins its own transaction, 0 when one is in progress. */
    function Owned(context: HttpContext): nat
    {
      if IsTransactionInProgress(context, connectionString) then 0 else 1
    }

    /** GetDBConnectionForRole. */
    method OpenConnection(context: HttpContext) returns (cn: Connection)
      modifies db
      ensures cn == ConnectionFor(context, connectionString)
      ensures db.tables == old(db.tables)
      ensures db.ledger == old(db.ledger).(freshConnections := old(db.ledger.freshConnections)
                                             + if cn.FreshConnection? then 1 else 0)
    {
      cn := ConnectionFor(context, connectionString);
      if cn.FreshConnection? {
        db.ledger := db.ledger.(freshConnections := db.ledger.freshConnections + 1);
      }
    }

    /** The finally block: dispose the connection unless a transaction is
        in progress. */
    method CloseConnection(cn: Connection, context: HttpContext)
      requires cn == ConnectionFor(context, connectionString)
      requires cn.FreshConnection? ==> db.ledger.freshConnections >= 1
      modifies db
      ensures db.tables == old(db.tables)
      ensures db.ledger == old(db.ledger).(freshConnections := old(db.ledger.freshConnections)
                                             - if cn.FreshConnection? then 1 else 0)
    {
      if !IsTransactionInProgress(context, connectionString) {
        db.ledger := db.ledger.(freshConnections := db.ledger.freshConnections - 1);
      }
    }

    /** Begin a transaction unless one is in progress. */
    method BeginIfNone(context: HttpContext) returns (own: bool)
      requires !db.ledger.ownTransactionOpen
      modifies db
      ensures own <==> !IsTransactionInProgress(context, connectionString)
      ensures db.tables == old(db.tables)
      ensures db.ledger == if own then old(db.ledger).(ownTransactionOpen := true, begun := old(db.ledger.begun) + 1)
                           else old(db.ledger)
    {
      own := !IsTransactionInProgress(context, connectionString);
      if own {
        db.ledger := db.ledger.(ownTransactionOpen := true, begun := db.ledger.begun + 1);
      }
    }

    /** Commit and dispose the transaction if this call began it. */
    method CommitIfOwned(own: bool)
      requires own ==> db.ledger.ownTransactionOpen
      modifies db
      ensures db.tables == old(db.tables)
      ensures db.ledger == if own then old(db.ledger).(ownTransactionOpen := false, committed := old(db.ledger.committed) + 1)
                           else old(db.ledger)
    {
      if own {
        db.ledger := db.ledger.(ownTransactionOpen := false, committed := db.ledger.committed + 1);
      }
    }

    /** GetApplicationId. */
    method GetApplicationId(appName: string, context: HttpContext) returns (id: Option<string>)
      modifies db
      ensures id == ApplicationIdOf(db.tables, appName)
      ensures db.tables == old(db.tables) && db.ledger == old(db.ledger)
    {
      var cn := OpenConnection(context);
      id := ApplicationIdOf(db.tables, appName);
      CloseConnection(cn, context);
    }

    /** The ApplicationName setter: a name over 256 characters is refused
        and nothing changes; otherwise the name is taken and its id looked
        up again, NULL when the application has no row. */
    method SetApplicationName(value: string, context: HttpContext) returns (r: Outcome<Exception>)
      modifies this, db
      ensures db.tables == old(db.tables) && db.ledger == old(db.ledger)
      ensures |value| > MaxApplicationNameLength ==>
                r == Fail(ProviderException("ApplicationName exceeds 256 characters."))
                && applicationName == old(applicationName) && applicationId == old(applicationId)
      ensures |value| <= MaxApplicationNameLength ==>
                r == Pass && applicationName == value && applicationId == ApplicationIdOf(db.tables, value)
    {
      if |value| > MaxApplicationNameLength {
        return Fail(ProviderException("ApplicationName exceeds 256 characters."));
      }
      applicationName := value;
      applicationId := GetApplicationId(applicationName, context);
      r := Pass;
    }

    /** VerifyApplication: with a non-empty id nothing happens; otherwise
        the application row is inserted under a new id, which the provider
        keeps. Either way the provider ends with a non-empty id. */
    method VerifyApplication(newApplicationId: string, context: HttpContext)
      requires newApplicationId != []
      modifies this, db
      ensures applicationName == old(applicationName) && db.ledger == old(db.ledger)
      ensures applicationId.Some? && applicationId.value != []
      ensures old(applicationId).Some? && old(applicationId).value != [] ==>
                applicationId == old(applicationId) && db.tables == old(db.tables)
      ensures !(old(applicationId).Some? && old(applicationId).value != []) ==>
                applicationId == Some(newApplicationId)
                && db.tables == old(db.tables).(applications := old(db.tables).applications[applicationName := newApplicationId])
                && ApplicationIdOf(db.tables, applicationName) == applicationId
    {
      if applicationId.Some? && applicationId.value != [] {
        return;
      }
      var cn := OpenConnection(context);
      applicationId := Some(newApplicationId);
      db.tables := db.tables.(applications := db.tables.applications[applicationName := newApplicationId]);
      CloseConnection(cn, context);
    }

    /** RoleExists. */
    method RoleExists(roleName: string, context: HttpContext) returns (found: bool)
      modifies db
      ensures found == HasRole(db.tables, applicationId, roleName)
      ensures db.tables == old(db.tables) && db.ledger == old(db.ledger)
    {
      var cn := OpenConnection(context);
      found := HasRole(db.tables, applicationId, roleName);
      CloseConnection(cn, context);
    }

    /** IsUserInRole. */
    method IsUserInRole(userName: string, roleName: string, context: HttpContext) returns (found: bool)
      modifies db
      ensures found == IsMember(db.tables, applicationId, userName, roleName)
      ensures db.tables == old(db.tables) && db.ledger == old(db.ledger)
    {
      var cn := OpenConnection(context);
      found := IsMember(db.tables, applicationId, userName, roleName);
      CloseConnection(cn, context);
    }

    /** The while (dr.Read()) loop and the trailing-comma strip and split
        shared by the list operations. */
    method ReadNames(rows: seq<string>) returns (names: seq<string>)
      ensures names == Listed(rows)
      ensures rows == [] <==> names == []
      ensures Free(rows, ',') ==> names == rows
    {
      var joined: string := [];
      var i := 0;
      while i < |rows|
        invariant 0 <= i <= |rows|
        invariant joined == Terminated(rows[..i], ',')
      {
        assert rows[..i + 1][..i] == rows[..i];
        joined := joined + rows[i] + [','];
        i := i + 1;
      }
      assert rows[..i] == rows;
      if |joined| > 0 {
        joined := joined[..|joined| - 1];
        names := Split(joined, ',');
      } else {
        names := [];
      }
      ListedRoundTrip(rows);
    }

    /** GetAllRoles, the roles read in the order given: the names of the
        application's roles, one each when none holds a comma. */
    method GetAllRoles(order: seq<string>, context: HttpContext) returns (names: seq<string>)
      requires Enumerates(order, RolesOf(db.tables, applicationId))
      modifies db
      ensures names == Listed(RoleNamesOf(db.tables, order))
      ensures names == [] <==> RolesOf(db.tables, applicationId) == {}
      ensures db.tables == old(db.tables) && db.ledger == old(db.ledger)
    {
      var cn := OpenConnection(context);
      names := ReadNames(RoleNamesOf(db.tables, order));
      CloseConnection(cn, context);
      EnumeratesEmpty(order, RolesOf(db.tables, applicationId));
    }

    /** GetRolesForUser, the memberships read in the order given. */
    method GetRolesForUser(userName: string, order: seq<(string, string)>, context: HttpContext)
      returns (names: seq<string>)
      requires Enumerates(order, MembershipsOf(db.tables, applicationId, userName))
      modifies db
      ensures names == Listed(MembershipRoleNamesOf(db.tables, order))
      ensures names == [] <==> MembershipsOf(db.tables, applicationId, userName) == {}
      ensures db.tables == old(db.tables) && db.ledger == old(db.ledger)
    {
      var cn := OpenConnection(context);
      names := ReadNames(MembershipRoleNamesOf(db.tables, order));
      CloseConnection(cn, context);
      EnumeratesEmpty(order, MembershipsOf(db.tables, applicationId, userName));
    }

    /** GetUsersInRole, the memberships read in the order given. */
    method GetUsersInRole(roleName: string, order: seq<(string, string)>, context: HttpContext)
      returns (names: seq<string>)
      requires Enumerates(order, MembersOf(db.tables, applicationId, roleName))
      modifies db
      ensures names == Listed(MemberNamesOf(db.tables, order))
      ensures names == [] <==> MembersOf(db.tables, applicationId, roleName) == {}
      ensures db.tables == old(db.tables) && db.ledger == old(db.ledger)
    {
      var cn := OpenConnection(context);
      names := ReadNames(MemberNamesOf(db.tables, order));
      CloseConnection(cn, context);
      EnumeratesEmpty(order, MembersOf(db.tables, applicationId, roleName));
    }

    /** The first loop of AddUsersToRoles and RemoveUsersFromRoles. */
    method CheckRolesExist(roleNames: seq<string>, context: HttpContext) returns (r: Outcome<Exception>)
      modifies db
      ensures r.Pass? <==> AllRolesExist(db.tables, applicationId, roleNames)
      ensures r.Fail? ==> r.error == ProviderException("Role name not found.")
      ensures db.tables == old(db.tables) && db.ledger == old(db.ledger)
    {
      var j := 0;
      while j < |roleNames|
        invariant 0 <= j <= |roleNames|
        invariant db.tables == old(db.tables) && db.ledger == old(db.ledger)
        invariant forall k :: 0 <= k < j ==> HasRole(db.tables, applicationId, roleNames[k])
      {
        var found := RoleExists(roleNames[j], context);
        if !found {
          return Fail(ProviderException("Role name not found."));
        }
        j := j + 1;
      }
      r := Pass;
    }

    /** The inner loop of the AddUsersToRoles checks. */
    method InAnyOf(userName: string, roleNames: seq<string>, context: HttpContext) returns (found: bool)
      modifies db
      ensures found == InAnyRole(db.tables, applicationId, userName, roleNames)
      ensures db.tables == old(db.tables) && db.ledger == old(db.ledger)
    {
      var j := 0;
      while j < |roleNames|
        invariant 0 <= j <= |roleNames|
        invariant db.tables == old(db.tables) && db.ledger == old(db.ledger)
        invariant forall k :: 0 <= k < j ==> !IsMember(db.tables, applicationId, userName, roleNames[k])
      {
        found := IsUserInRole(userName, roleNames[j], context);
        if found {
          return;
        }
        j := j + 1;
      }
      found := false;
    }

    /** The inner loop of the RemoveUsersFromRoles checks. */
    method InAllOf(userName: string, roleNames: seq<string>, context: HttpContext) returns (all: bool)
      modifies db
      ensures all == InAllRoles(db.tables, applicationId, userName, roleNames)
      ensures db.tables == old(db.tables) && db.ledger == old(db.ledger)
    {
      var j := 0;
      while j < |roleNames|
        invariant 0 <= j <= |roleNames|
        invariant db.tables == old(db.tables) && db.ledger == old(db.ledger)
        invariant forall k :: 0 <= k < j ==> IsMember(db.tables, applicationId, userName, roleNames[k])
      {
        var found := IsUserInRole(userName, roleNames[j], context);
        if !found {
          return false;
        }
        j := j + 1;
      }
      all := true;
    }

    /** The second loop of the AddUsersToRoles checks. */
    method CheckNewMembers(usernames: seq<string>, roleNames: seq<string>, context: HttpContext)
      returns (r: Outcome<Exception>)
      modifies db
      ensures r == NewMemberChecks(db.tables, applicationId, usernames, roleNames)
      ensures db.tables == old(db.tables) && db.ledger == old(db.ledger)
    {
      var i := 0;
      while i < |usernames|
        invariant 0 <= i <= |usernames|
        invariant db.tables == old(db.tables) && db.ledger == old(db.ledger)
        invariant NewMemberChecks(db.tables, applicationId, usernames, roleNames)
                  == NewMemberChecks(db.tables, applicationId, usernames[i..], roleNames)
      {
        if IndexOf(usernames[i], ',') > 0 {
          return Fail(ArgumentException("User names cannot contain commas."));
        }
        var inAny := InAnyOf(usernames[i], roleNames, context);
        if inAny {
          return Fail(ProviderException("User is already in role."));
        }
        assert usernames[i..][1..] == usernames[i + 1..];
        i := i + 1;
      }
      r := Pass;
    }

    /** The second loop of the RemoveUsersFromRoles checks. */
    method CheckMembers(usernames: seq<string>, roleNames: seq<string>, context: HttpContext)
      returns (all: bool)
      modifies db
      ensures all <==> forall i :: 0 <= i < |usernames| ==> InAllRoles(db.tables, applicationId, usernames[i], roleNames)
      ensures db.tables == old(db.tables) && db.ledger == old(db.ledger)
    {
      var i := 0;
      while i < |usernames|
        invariant 0 <= i <= |usernames|
        invariant db.tables == old(db.tables) && db.ledger == old(db.ledger)
        invariant forall k :: 0 <= k < i ==> InAllRoles(db.tables, applicationId, usernames[k], roleNames)
      {
        all := InAllOf(usernames[i], roleNames, context);
        if !all {
          return;
        }
        i := i + 1;
      }
      all := true;
    }

    /** The inserts for one user name, role by role. */
    method GrantRow(userName: string, roleNames: seq<string>, ghost start: RoleTables, ghost done: set<string>)
      requires db.tables == Grant(start, applicationId, done, Lowered(roleNames))
      modifies db
      ensures db.tables == Grant(start, applicationId, done + {ToLower(userName)}, Lowered(roleNames))
      ensures db.ledger == old(db.ledger)
    {
      ghost var before := db.tables.usersInRoles;
      var j := 0;
      while j < |roleNames|
        invariant 0 <= j <= |roleNames|
        invariant db.tables == start.(usersInRoles := before
                    + Pairs(start.users, start.roles, applicationId, {ToLower(userName)}, Lowered(roleNames[..j])))
        invariant db.ledger == old(db.ledger)
      {
        db.tables := InsertMembers(db.tables, applicationId, ToLower(userName), ToLower(roleNames[j]));
        LoweredSnoc(roleNames, j);
        PairsUnionRoles(start.users, start.roles, applicationId, {ToLower(userName)},
                        Lowered(roleNames[..j]), {ToLower(roleNames[j])});
        j := j + 1;
      }
      assert roleNames[..j] == roleNames;
      PairsUnionUsers(start.users, start.roles, applicationId, done, {ToLower(userName)}, Lowered(roleNames));
    }

    /** The inserts of AddUsersToRoles inside its transaction. */
    method GrantAll(usernames: seq<string>, roleNames: seq<string>, context: HttpContext)
      requires Valid()
      modifies db
      ensures db.tables == Grant(old(db.tables), applicationId, Lowered(usernames), Lowered(roleNames))
      ensures db.ledger == old(db.ledger).Through(Owned(context))
    {
      var cn := OpenConnection(context);
      var own := BeginIfNone(context);
      ghost var start := db.tables;
      ghost var ledger := db.ledger;
      assert Lowered(usernames[..0]) == {};
      assert db.tables == Grant(start, applicationId, {}, Lowered(roleNames));
      var i := 0;
      while i < |usernames|
        invariant 0 <= i <= |usernames|
        invariant db.tables == Grant(start, applicationId, Lowered(usernames[..i]), Lowered(roleNames))
        invariant db.ledger == ledger
      {
        GrantRow(usernames[i], roleNames, start, Lowered(usernames[..i]));
        LoweredSnoc(usernames, i);
        i := i + 1;
      }
      assert usernames[..i] == usernames;
      CommitIfOwned(own);
      CloseConnection(cn, context);
    }

    /** The deletes for one user name, role by role. */
    method RevokeRow(userName: string, roleNames: seq<string>, ghost start: RoleTables, ghost done: set<string>)
      requires db.tables == Revoke(start, applicationId, done, Lowered(roleNames))
      modifies db
      ensures db.tables == Revoke(start, applicationId, done + {ToLower(userName)}, Lowered(roleNames))
      ensures db.ledger == old(db.ledger)
    {
      ghost var before := db.tables.usersInRoles;
      var j := 0;
      while j < |roleNames|
        invariant 0 <= j <= |roleNames|
        invariant db.tables == start.(usersInRoles := before
                    - Pairs(start.users, start.roles, applicationId, {ToLower(userName)}, Lowered(roleNames[..j])))
        invariant db.ledger == old(db.ledger)
      {
        db.tables := DeleteMembers(db.tables, applicationId, ToLower(userName), ToLower(roleNames[j]));
        LoweredSnoc(roleNames, j);
        PairsUnionRoles(start.users, start.roles, applicationId, {ToLower(userName)},
                        Lowered(roleNames[..j]), {ToLower(roleNames[j])});
        j := j + 1;
      }
      assert roleNames[..j] == roleNames;
      PairsUnionUsers(start.users, start.roles, applicationId, done, {ToLower(userName)}, Lowered(roleNames));
    }

    /** The deletes of RemoveUsersFromRoles inside its transaction. */
    method RevokeAll(usernames: seq<string>, roleNames: seq<string>, context: HttpContext)
      requires Valid()
      modifies db
      ensures db.tables == Revoke(old(db.tables), applicationId, Lowered(usernames), Lowered(roleNames))
      ensures db.ledger == old(db.ledger).Through(Owned(context))
    {
      var cn := OpenConnection(context);
      var own := BeginIfNone(context);
      ghost var start := db.tables;
      ghost var ledger := db.ledger;
      assert Lowered(usernames[..0]) == {};
      assert db.tables == Revoke(start, applicationId, {}, Lowered(roleNames));
      var i := 0;
      while i < |usernames|
        invariant 0 <= i <= |usernames|
        invariant db.tables == Revoke(start, applicationId, Lowered(usernames[..i]), Lowered(roleNames))
        invariant db.ledger == ledger
      {
        RevokeRow(usernames[i], roleNames, start, Lowered(usernames[..i]));
        LoweredSnoc(usernames, i);
        i := i + 1;
      }
      assert usernames[..i] == usernames;
      CommitIfOwned(own);
      CloseConnection(cn, context);
    }

    /** AddUsersToRoles: the checks, then every requested user that has a
        row joins every requested role, in a transaction of its own unless
        one is in progress. A failed check writes nothing. */
    method AddUsersToRoles(usernames: seq<string>, roleNames: seq<string>, context: HttpContext)
      returns (r: Outcome<Exception>)
      requires Valid()
      modifies db
      ensures r == AddUsersChecks(old(db.tables), applicationId, usernames, roleNames)
      ensures r.Fail? ==> db.tables == old(db.tables) && db.ledger == old(db.ledger)
      ensures r.Pass? ==> db.tables == Grant(old(db.tables), applicationId, Lowered(usernames), Lowered(roleNames))
                          && db.ledger == old(db.ledger).Through(Owned(context))
    {
      r := CheckRolesExist(roleNames, context);
      if r.Fail? {
        return;
      }
      r := CheckNewMembers(usernames, roleNames, context);
      if r.Fail? {
        return;
      }
      GrantAll(usernames, roleNames, context);
    }

    /** RemoveUsersFromRoles: every role must exist and every requested
        user be in every requested role; then those memberships go. */
    method RemoveUsersFromRoles(usernames: seq<string>, roleNames: seq<string>, context: HttpContext)
      returns (r: Outcome<Exception>)
      requires Valid()
      modifies db
      ensures r == RemoveUsersChecks(old(db.tables), applicationId, usernames, roleNames)
      ensures r.Fail? ==> db.tables == old(db.tables) && db.ledger == old(db.ledger)
      ensures r.Pass? ==> db.tables == Revoke(old(db.tables), applicationId, Lowered(usernames), Lowered(roleNames))
                          && db.ledger == old(db.ledger).Through(Owned(context))
    {
      r := CheckRolesExist(roleNames, context);
      if r.Fail? {
        return;
      }
      var all := CheckMembers(usernames, roleNames, context);
      if !all {
        return Fail(ProviderException("User is not in role."));
      }
      RevokeAll(usernames, roleNames, context);
      r := Pass;
    }

    /** CreateRole: the comma, existence and validator checks in that
        order, then the row under a new id with the validated name. */
    method CreateRole(roleName: string, validate: RoleNameValidator, newRoleId: string, context: HttpContext)
      returns (r: Outcome<Exception>)
      requires newRoleId !in db.tables.roles
      modifies db
      ensures r == CreateRoleChecks(old(db.tables), applicationId, validate, roleName)
      ensures db.ledger == old(db.ledger)
      ensures r.Fail? ==> db.tables == old(db.tables)
      ensures r.Pass? ==> db.tables == AddRoleRow(old(db.tables), newRoleId,
                            validate(roleName, true, true, false, MaxRoleNameLength).value, applicationId)
    {
      if IndexOf(roleName, ',') > 0 {
        return Fail(ArgumentException("Role names cannot contain commas."));
      }
      var found := RoleExists(roleName, context);
      if found {
        return Fail(ProviderException("Role name already exists."));
      }
      var validated := validate(roleName, true, true, false, MaxRoleNameLength);
      if validated.None? {
        return Fail(ProviderException("The role name is too long: it must not exceed 256 chars in length."));
      }
      var cn := OpenConnection(context);
      db.tables := AddRoleRow(db.tables, newRoleId, validated.value, applicationId);
      CloseConnection(cn, context);
      r := Pass;
    }

    /** The two deletes of DeleteRole inside its transaction. */
    method DropRoleRows(roleName: string, context: HttpContext)
      requires Valid()
      modifies db
      ensures db.tables == DropRoleAsWritten(old(db.tables), applicationId, roleName)
      ensures db.ledger == old(db.ledger).Through(Owned(context))
    {
      var cn := OpenConnection(context);
      var own := BeginIfNone(context);
      db.tables := DeleteMembershipsAsWritten(db.tables, ToLower(roleName));
      db.tables := DeleteRoleRows(db.tables, applicationId, ToLower(roleName));
      CommitIfOwned(own);
      CloseConnection(cn, context);
    }

    /** DeleteRole: an unknown role, and a populated one when asked to
        refuse those, are errors; otherwise the memberships of every role
        with its lowered name, in any application, and then the role go,
        and the answer is true. */
    method DeleteRole(roleName: string, throwOnPopulatedRole: bool, members: seq<(string, string)>,
                      context: HttpContext)
      returns (r: Result<bool, Exception>)
      requires Valid()
      requires Enumerates(members, MembersOf(db.tables, applicationId, roleName))
      modifies db
      ensures !HasRole(old(db.tables), applicationId, roleName) ==>
                r == Err(ProviderException("Role does not exist.")) && db.tables == old(db.tables)
                && db.ledger == old(db.ledger)
      ensures HasRole(old(db.tables), applicationId, roleName) && throwOnPopulatedRole
              && MembersOf(old(db.tables), applicationId, roleName) != {} ==>
                r == Err(ProviderException("Cannot delete a populated role.")) && db.tables == old(db.tables)
                && db.ledger == old(db.ledger)
      ensures HasRole(old(db.tables), applicationId, roleName)
              && !(throwOnPopulatedRole && MembersOf(old(db.tables), applicationId, roleName) != {}) ==>
                r == Ok(true) && db.tables == DropRoleAsWritten(old(db.tables), applicationId, roleName)
                && db.ledger == old(db.ledger).Through(Owned(context))
    {
      var found := RoleExists(roleName, context);
      if !found {
        return Err(ProviderException("Role does not exist."));
      }
      if throwOnPopulatedRole {
        var names := GetUsersInRole(roleName, members, context);
        if |names| > 0 {
          return Err(ProviderException("Cannot delete a populated role."));
        }
      }
      DropRoleRows(roleName, context);
      r := Ok(true);
    }
  }
}
