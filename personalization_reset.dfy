/** The reset operations of the Access personalization provider: the
    argument checks of ResetState and its dispatch, and the rows each reset
    deletes and counts. */
module PersonalizationReset {
  import opened Common
  import opened AccessStore
  import opened Identifiers
  import Helper = PersonalizationProviderHelper

  /** The longest path, user name or application name the provider takes. */
  const MaxStringLength: nat := 255

  // ---------------------------------------------------------------------
  // The ResetState dispatch

  /** What ResetState goes on to do once its arguments pass. */
  datatype ResetAction =
    | ResetAllShared                                              // ResetAllState on the shared table
    | ResetSharedPaths(paths: seq<string>)                        // ResetStatePerPaths on the shared table
    | ResetAllUsers                                               // ResetAllState on the per-user table
    | ResetUserPaths(paths: seq<string>)                          // ResetStatePerPaths on the per-user table
    | ResetUsersAt(path: Option<string>, usernames: seq<string>)  // ResetUserStatePerUsers

  /** An array argument that is present and not empty. */
  predicate HasEntries(entries: Option<seq<string>>)
  {
    entries.Some? && |entries.value| > 0
  }

  /** ResetState's checks and dispatch: the scope, the paths (trimmed, at
      most 255 characters), the user names (trimmed, no commas, at most 255
      characters); then the shared scope refuses user names and resets all
      shared state or that of the paths, and the user scope refuses user
      names with more than one path and resets everything, the paths, or
      the users' state at the first path. */
  function ResetPlan(scope: int, paths: Option<seq<Option<string>>>, usernames: Option<seq<Option<string>>>)
    : (r: Result<ResetAction, Helper.ArgError>)
    ensures Helper.CheckPersonalizationScope(scope).Fail? ==> r == Err(Helper.ArgumentOutOfRange("scope"))
    ensures r.Ok? ==>
              && Helper.CheckArrayEntries(paths, "paths", false, false, MaxStringLength).Ok?
              && Helper.CheckArrayEntries(usernames, "usernames", false, true, MaxStringLength).Ok?
    ensures scope == Helper.SharedScope ==>
              (r.Ok? <==> && Helper.CheckArrayEntries(paths, "paths", false, false, MaxStringLength).Ok?
                          && Helper.CheckArrayEntries(usernames, "usernames", false, true, MaxStringLength).Ok?
                          && usernames.None?)
    ensures scope == Helper.UserScope ==>
              (r.Ok? <==> && Helper.CheckArrayEntries(paths, "paths", false, false, MaxStringLength).Ok?
                          && Helper.CheckArrayEntries(usernames, "usernames", false, true, MaxStringLength).Ok?
                          && !(usernames.Some? && paths.Some? && |paths.value| > 1))
    ensures r.Ok? ==> (r.value.ResetAllShared? <==> scope == Helper.SharedScope && paths.None?)
    ensures r.Ok? ==> (r.value.ResetSharedPaths? <==> scope == Helper.SharedScope && paths.Some?)
    ensures r.Ok? ==> (r.value.ResetAllUsers? <==> scope == Helper.UserScope && paths.None? && usernames.None?)
    ensures r.Ok? ==> (r.value.ResetUserPaths? <==> scope == Helper.UserScope && paths.Some? && usernames.None?)
    ensures r.Ok? ==> (r.value.ResetUsersAt? <==> scope == Helper.UserScope && usernames.Some?)
    ensures r.Ok? && (r.value.ResetSharedPaths? || r.value.ResetUserPaths?) ==>
              r.value.paths == Helper.CheckArrayEntries(paths, "paths", false, false, MaxStringLength).value.value
              && |r.value.paths| > 0
    ensures r.Ok? && r.value.ResetUsersAt? ==>
              && r.value.usernames == Helper.CheckArrayEntries(usernames, "usernames", false, true, MaxStringLength).value.value
              && |r.value.usernames| > 0
              && r.value.path == (if paths.Some? then Some(Trim(paths.value[0].value)) else None)
  {
    var scopeCheck := Helper.CheckPersonalizationScope(scope);
    if scopeCheck.Fail? then Err(scopeCheck.error)
    else
      var checkedPaths := Helper.CheckArrayEntries(paths, "paths", false, false, MaxStringLength);
      if checkedPaths.Err? then Err(checkedPaths.error)
      else
        var checkedUsers := Helper.CheckArrayEntries(usernames, "usernames", false, true, MaxStringLength);
        if checkedUsers.Err? then Err(checkedUsers.error)
        else if scope == Helper.SharedScope then
          var sharedCheck := Helper.CheckUsernamesInSharedScope(checkedUsers.value);
          if sharedCheck.Fail? then Err(sharedCheck.error)
          else if checkedPaths.value.None? then Ok(ResetAllShared)
          else Ok(ResetSharedPaths(checkedPaths.value.value))
        else
          var pathCheck := Helper.CheckOnlyOnePathWithUsers(checkedPaths.value, checkedUsers.value);
          if pathCheck.Fail? then Err(pathCheck.error)
          else if !HasEntries(checkedPaths.value) && !HasEntries(checkedUsers.value) then Ok(ResetAllUsers)
          else if !HasEntries(checkedUsers.value) then Ok(ResetUserPaths(checkedPaths.value.value))
          else Ok(ResetUsersAt(if checkedPaths.value.Some? then Some(checkedPaths.value.value[0]) else None,
                               checkedUsers.value.value))
  }

  // ---------------------------------------------------------------------
  // What the resets delete

  /** The two tables of page settings. */
  datatype BlobTable = AllUsersTable | PerUserTable

  /** The number of rows of a table of page settings. */
  function RowCount(t: Tables, table: BlobTable): nat
  {
    if table.AllUsersTable? then |t.sharedBlobs.Keys| else |t.userBlobs.Keys|
  }

  /** DELETE FROM the table (ResetAllState). */
  function DeleteAllStatement(table: BlobTable): Statement
  {
    if table.AllUsersTable? then DeleteAllSharedBlobs else DeleteAllUserBlobs
  }

  /** DELETE FROM the table empties it and changes nothing else. */
  lemma DeleteAllParts(t: Tables, table: BlobTable)
    ensures RowCount(Apply(t, DeleteAllStatement(table)), table) == 0
    ensures SameIds(t, Apply(t, DeleteAllStatement(table)))
  {
    var r := Apply(t, DeleteAllStatement(table));
    if table.AllUsersTable? {
      assert r.sharedBlobs == map[];
    } else {
      assert r.userBlobs == map[];
    }
  }

  /** DELETE FROM the table WHERE PathId = @PathId. The SELECT COUNT(*)
      before it has the same FROM and WHERE clause, so it counts the rows
      the DELETE affects. */
  function DeletePathStatement(table: BlobTable, pathId: int): Statement
  {
    if table.AllUsersTable? then DeleteSharedBlobsAt(pathId) else DeleteUserBlobsAt(pathId)
  }

  /** The tables after a reset and the count it returns. */
  datatype Cleared = Cleared(tables: Tables, count: nat)

  /** The rows a per-path reset removes from the per-user table. */
  function UserRowsAtPaths(t: Tables, ids: set<int>): set<(int, int)>
  {
    set k | k in t.userBlobs && k.0 in ids
  }

  /** The rows of a table stored for one path: what the SELECT COUNT(*)
      before the per-path DELETE finds. */
  function PathRows(t: Tables, table: BlobTable, pathId: int): nat
  {
    if table.AllUsersTable? then (if pathId in t.sharedBlobs then 1 else 0)
    else |UserRowsAtPaths(t, {pathId})|
  }

  /** The tables once a per-path delete has run: its own table loses the
      path's rows. */
  function AfterPathDelete(t: Tables, table: BlobTable, pathId: int): Tables
  {
    if table.AllUsersTable? then t.(sharedBlobs := Without(t.sharedBlobs, {pathId}))
    else t.(userBlobs := Without(t.userBlobs, UserRowsAtPaths(t, {pathId})))
  }

  /** DELETE ... WHERE PathId = @PathId on the shared table. */
  lemma DeleteSharedPathStep(t: Tables, pathId: int)
    ensures Apply(t, DeleteSharedBlobsAt(pathId)) == AfterPathDelete(t, AllUsersTable, pathId)
  {
  }

  /** DELETE ... WHERE PathId = @PathId on the per-user table. */
  lemma DeleteUserPathStep(t: Tables, pathId: int)
    ensures Apply(t, DeleteUserBlobsAt(pathId)) == AfterPathDelete(t, PerUserTable, pathId)
    ensures Affected(t, DeleteUserBlobsAt(pathId)) == PathRows(t, PerUserTable, pathId)
  {
    assert UserBlobsAt(t, pathId) == UserRowsAtPaths(t, {pathId});
  }

  /** DELETE ... WHERE PathId = @PathId does what AfterPathDelete says, and
      affects the rows the count before it finds. */
  lemma DeletePathStep(t: Tables, table: BlobTable, pathId: int)
    ensures Apply(t, DeletePathStatement(table, pathId)) == AfterPathDelete(t, table, pathId)
    ensures Affected(t, DeletePathStatement(table, pathId)) == PathRows(t, table, pathId)
  {
    if table.AllUsersTable? {
      DeleteSharedPathStep(t, pathId);
    } else {
      DeleteUserPathStep(t, pathId);
    }
  }

  /** A per-path delete shrinks its table by the path's rows. */
  lemma PathRowsRemoved(t: Tables, table: BlobTable, pathId: int)
    ensures RowCount(AfterPathDelete(t, table, pathId), table) + PathRows(t, table, pathId) == RowCount(t, table)
  {
    if table.AllUsersTable? {
      SharedRowRemoved(t.sharedBlobs, pathId);
    } else {
      WithoutCardinality(t.userBlobs, UserRowsAtPaths(t, {pathId}));
    }
  }

  /** Removing one key shrinks a map by one exactly when the key is there. */
  lemma SharedRowRemoved(m: map<int, Blob>, pathId: int)
    ensures |Without(m, {pathId}).Keys| + (if pathId in m then 1 else 0) == |m.Keys|
  {
    if pathId in m {
      WithoutCardinality(m, {pathId});
    } else {
      assert Without(m, {pathId}).Keys == m.Keys;
    }
  }

  /** One round of ResetStatePerPaths' loop: the path's id is looked up (0
      when absent), its rows counted, and when there are any they are
      deleted and added to the count. */
  function ClearPath(c: Cleared, table: BlobTable, appId: int, path: string): Cleared
  {
    var id := PathIdIn(c.tables, appId, path);
    var n := PathRows(c.tables, table, id);
    if n > 0 then Cleared(AfterPathDelete(c.tables, table, id), c.count + n) else c
  }

  /** ResetStatePerPaths' loop over all the paths, in order. */
  function ClearPaths(t: Tables, table: BlobTable, appId: int, paths: seq<string>): Cleared
    decreases |paths|
  {
    if paths == [] then Cleared(t, 0)
    else ClearPath(ClearPaths(t, table, appId, paths[..|paths| - 1]), table, appId, paths[|paths| - 1])
  }

  /** ClearPath through the statements it runs: the count query, then the
      delete when the count is positive. */
  lemma ClearPathByStatement(c: Cleared, table: BlobTable, appId: int, path: string)
    ensures var id := PathIdIn(c.tables, appId, path);
            var n := PathRows(c.tables, table, id);
            ClearPath(c, table, appId, path)
            == if n > 0 then Cleared(Apply(c.tables, DeletePathStatement(table, id)), c.count + n) else c
  {
    DeletePathStep(c.tables, table, PathIdIn(c.tables, appId, path));
  }

  /** ClearPaths over one more path. */
  lemma ClearPathsSnoc(t: Tables, table: BlobTable, appId: int, paths: seq<string>, i: nat)
    requires i < |paths|
    ensures ClearPaths(t, table, appId, paths[..i + 1]) == ClearPath(ClearPaths(t, table, appId, paths[..i]), table, appId, paths[i])
  {
    assert paths[..i + 1][..i] == paths[..i];
  }

  /** The ids the paths have (0 for a path without a row). */
  function PathIds(t: Tables, appId: int, paths: seq<string>): set<int>
  {
    set i | 0 <= i < |paths| :: PathIdIn(t, appId, paths[i])
  }

  /** Only the given table of page settings differs. */
  predicate OnlyTableChanged(t: Tables, r: Tables, table: BlobTable)
  {
    && SameIds(t, r)
    && r.usersInRoles == t.usersInRoles && r.membership == t.membership && r.profiles == t.profiles
    && (table.AllUsersTable? ==> r.userBlobs == t.userBlobs)
    && (table.PerUserTable? ==> r.sharedBlobs == t.sharedBlobs)
  }

  /** One round changes its own table alone. */
  lemma ClearPathKeeps(c: Cleared, table: BlobTable, appId: int, path: string)
    ensures OnlyTableChanged(c.tables, ClearPath(c, table, appId, path).tables, table)
  {
  }

  /** One round adds to the count the rows it removes from its table. */
  lemma ClearPathCount(c: Cleared, table: BlobTable, appId: int, path: string)
    ensures ClearPath(c, table, appId, path).count + RowCount(ClearPath(c, table, appId, path).tables, table)
            == c.count + RowCount(c.tables, table)
  {
    PathRowsRemoved(c.tables, table, PathIdIn(c.tables, appId, path));
  }

  /** One round on the shared table removes the row of the path's id. */
  lemma ClearPathShared(c: Cleared, appId: int, path: string)
    ensures ClearPath(c, AllUsersTable, appId, path).tables.sharedBlobs
            == Without(c.tables.sharedBlobs, {PathIdIn(c.tables, appId, path)})
  {
    if PathIdIn(c.tables, appId, path) !in c.tables.sharedBlobs {
      assert Without(c.tables.sharedBlobs, {PathIdIn(c.tables, appId, path)}) == c.tables.sharedBlobs;
    }
  }

  /** One round on the per-user table removes the rows at the path's id. */
  lemma ClearPathUser(c: Cleared, appId: int, path: string)
    ensures ClearPath(c, PerUserTable, appId, path).tables.userBlobs
            == Without(c.tables.userBlobs, UserRowsAtPaths(c.tables, {PathIdIn(c.tables, appId, path)}))
  {
    if UserRowsAtPaths(c.tables, {PathIdIn(c.tables, appId, path)}) == {} {
      assert Without(c.tables.userBlobs, {}) == c.tables.userBlobs;
    }
  }

  /** A per-path reset changes its own table alone. */
  lemma {:induction false} ClearPathsKeeps(t: Tables, table: BlobTable, appId: int, paths: seq<string>)
    ensures OnlyTableChanged(t, ClearPaths(t, table, appId, paths).tables, table)
    decreases |paths|
  {
    if paths != [] {
      ClearPathsKeeps(t, table, appId, paths[..|paths| - 1]);
      ClearPathKeeps(ClearPaths(t, table, appId, paths[..|paths| - 1]), table, appId, paths[|paths| - 1]);
    }
  }

  /** A per-path reset returns the number of rows it removed. */
  lemma {:induction false} ClearPathsCount(t: Tables, table: BlobTable, appId: int, paths: seq<string>)
    ensures ClearPaths(t, table, appId, paths).count + RowCount(ClearPaths(t, table, appId, paths).tables, table)
            == RowCount(t, table)
    decreases |paths|
  {
    if paths != [] {
      ClearPathsCount(t, table, appId, paths[..|paths| - 1]);
      ClearPathCount(ClearPaths(t, table, appId, paths[..|paths| - 1]), table, appId, paths[|paths| - 1]);
    }
  }

  /** On the shared table, a per-path reset removes exactly the rows of
      the paths' ids. */
  lemma {:induction false} ClearSharedPaths(t: Tables, appId: int, paths: seq<string>)
    ensures ClearPaths(t, AllUsersTable, appId, paths).tables.sharedBlobs == Without(t.sharedBlobs, PathIds(t, appId, paths))
    decreases |paths|
  {
    if paths == [] {
      assert Without(t.sharedBlobs, {}) == t.sharedBlobs;
    } else {
      var prefix := paths[..|paths| - 1];
      var before := ClearPaths(t, AllUsersTable, appId, prefix);
      ClearSharedPaths(t, appId, prefix);
      ClearPathsKeeps(t, AllUsersTable, appId, prefix);
      ClearPathShared(before, appId, paths[|paths| - 1]);
      PathIdsSnoc(t, appId, paths);
      WithoutTwice(t.sharedBlobs, PathIds(t, appId, prefix), {PathIdIn(t, appId, paths[|paths| - 1])});
    }
  }

  /** On the per-user table, a per-path reset removes exactly the rows at
      the paths' ids. */
  lemma {:induction false} ClearUserPaths(t: Tables, appId: int, paths: seq<string>)
    ensures ClearPaths(t, PerUserTable, appId, paths).tables.userBlobs
            == Without(t.userBlobs, UserRowsAtPaths(t, PathIds(t, appId, paths)))
    decreases |paths|
  {
    if paths == [] {
      assert Without(t.userBlobs, {}) == t.userBlobs;
    } else {
      var prefix := paths[..|paths| - 1];
      var before := ClearPaths(t, PerUserTable, appId, prefix);
      ClearUserPaths(t, appId, prefix);
      ClearPathsKeeps(t, PerUserTable, appId, prefix);
      ClearPathUser(before, appId, paths[|paths| - 1]);
      PathIdsSnoc(t, appId, paths);
      UserRowsAtSnoc(t, before.tables, PathIds(t, appId, prefix), PathIdIn(t, appId, paths[|paths| - 1]));
    }
  }

  /** Removing two sets of keys one after the other. */
  lemma WithoutTwice<K, V>(m: map<K, V>, a: set<K>, b: set<K>)
    ensures Without(Without(m, a), b) == Without(m, a + b)
  {
  }

  /** The ids of a list are those of its front and of its last path. */
  lemma PathIdsSnoc(t: Tables, appId: int, paths: seq<string>)
    requires paths != []
    ensures PathIds(t, appId, paths) == PathIds(t, appId, paths[..|paths| - 1]) + {PathIdIn(t, appId, paths[|paths| - 1])}
  {
    var prefix := paths[..|paths| - 1];
    forall id | id in PathIds(t, appId, paths)
      ensures id in PathIds(t, appId, prefix) + {PathIdIn(t, appId, paths[|paths| - 1])}
    {
      var i :| 0 <= i < |paths| && id == PathIdIn(t, appId, paths[i]);
      if i < |paths| - 1 {
        assert prefix[i] == paths[i];
      }
    }
    forall id | id in PathIds(t, appId, prefix)
      ensures id in PathIds(t, appId, paths)
    {
      var i :| 0 <= i < |prefix| && id == PathIdIn(t, appId, prefix[i]);
      assert paths[i] == prefix[i];
    }
  }

  /** Removing one more path's rows from what a reset left behind. */
  lemma UserRowsAtSnoc(t: Tables, before: Tables, ids: set<int>, id: int)
    requires before.userBlobs == Without(t.userBlobs, UserRowsAtPaths(t, ids))
    ensures Without(before.userBlobs, UserRowsAtPaths(before, {id})) == Without(t.userBlobs, UserRowsAtPaths(t, ids + {id}))
  {
  }

  /** The rows of the given users, at the filtered path when there is one. */
  function RowsOfUsers(t: Tables, ids: set<int>, pathFilter: Option<int>): set<(int, int)>
  {
    set k | k in t.userBlobs && k.1 in ids && (pathFilter.None? || k.0 == pathFilter.value)
  }

  /** The rows of one user (at the filtered path): what the SELECT
      COUNT(*) before the per-user DELETE finds. */
  function UserRows(t: Tables, userId: int, pathFilter: Option<int>): nat
  {
    |RowsOfUsers(t, {userId}, pathFilter)|
  }

  /** The tables once a user's delete has run. */
  function AfterUserDelete(t: Tables, userId: int, pathFilter: Option<int>): Tables
  {
    t.(userBlobs := Without(t.userBlobs, RowsOfUsers(t, {userId}, pathFilter)))
  }

  /** DELETE ... WHERE UserId [AND PathId] does what AfterUserDelete says,
      and affects the rows the count before it finds. */
  lemma DeleteUserStep(t: Tables, userId: int, pathFilter: Option<int>)
    ensures Apply(t, DeleteUserBlobsOf(userId, pathFilter)) == AfterUserDelete(t, userId, pathFilter)
    ensures Affected(t, DeleteUserBlobsOf(userId, pathFilter)) == UserRows(t, userId, pathFilter)
  {
    assert UserBlobsOf(t, userId, pathFilter) == RowsOfUsers(t, {userId}, pathFilter);
  }

  /** A user's delete shrinks the per-user table by the user's rows. */
  lemma UserRowsRemoved(t: Tables, userId: int, pathFilter: Option<int>)
    ensures |AfterUserDelete(t, userId, pathFilter).userBlobs.Keys| + UserRows(t, userId, pathFilter)
            == |t.userBlobs.Keys|
  {
    WithoutCardinality(t.userBlobs, RowsOfUsers(t, {userId}, pathFilter));
  }

  /** One round of ResetUserStatePerUsers' loop: the user's rows (at the
      filtered path, when there is one) are counted, and when there are
      any they are deleted and added to the count. */
  function ClearUser(c: Cleared, appId: int, pathFilter: Option<int>, userName: string): Cleared
  {
    var id := UserLookup(c.tables, appId, userName);
    var n := UserRows(c.tables, id, pathFilter);
    if n > 0 then Cleared(AfterUserDelete(c.tables, id, pathFilter), c.count + n) else c
  }

  /** ResetUserStatePerUsers' loop over all the users, in order. */
  function ClearUsers(t: Tables, appId: int, pathFilter: Option<int>, usernames: seq<string>): Cleared
    decreases |usernames|
  {
    if usernames == [] then Cleared(t, 0)
    else ClearUser(ClearUsers(t, appId, pathFilter, usernames[..|usernames| - 1]), appId, pathFilter, usernames[|usernames| - 1])
  }

  /** ClearUser through the statements it runs. */
  lemma ClearUserByStatement(c: Cleared, appId: int, pathFilter: Option<int>, userName: string)
    ensures var id := UserLookup(c.tables, appId, userName);
            var n := UserRows(c.tables, id, pathFilter);
            ClearUser(c, appId, pathFilter, userName)
            == if n > 0 then Cleared(Apply(c.tables, DeleteUserBlobsOf(id, pathFilter)), c.count + n) else c
  {
    DeleteUserStep(c.tables, UserLookup(c.tables, appId, userName), pathFilter);
  }

  /** ClearUsers over one more user. */
  lemma ClearUsersSnoc(t: Tables, appId: int, pathFilter: Option<int>, usernames: seq<string>, i: nat)
    requires i < |usernames|
    ensures ClearUsers(t, appId, pathFilter, usernames[..i + 1])
            == ClearUser(ClearUsers(t, appId, pathFilter, usernames[..i]), appId, pathFilter, usernames[i])
  {
    assert usernames[..i + 1][..i] == usernames[..i];
  }

  /** The ids the users have (0 for a user without a row). */
  function UserIds(t: Tables, appId: int, usernames: seq<string>): set<int>
  {
    set i | 0 <= i < |usernames| :: UserLookup(t, appId, usernames[i])
  }

  /** One round changes the per-user table alone. */
  lemma ClearUserKeeps(c: Cleared, appId: int, pathFilter: Option<int>, userName: string)
    ensures OnlyTableChanged(c.tables, ClearUser(c, appId, pathFilter, userName).tables, PerUserTable)
  {
  }

  /** One round adds to the count the rows it removes. */
  lemma ClearUserCount(c: Cleared, appId: int, pathFilter: Option<int>, userName: string)
    ensures ClearUser(c, appId, pathFilter, userName).count + |ClearUser(c, appId, pathFilter, userName).tables.userBlobs.Keys|
            == c.count + |c.tables.userBlobs.Keys|
  {
    UserRowsRemoved(c.tables, UserLookup(c.tables, appId, userName), pathFilter);
  }

  /** One round removes the user's rows. */
  lemma ClearUserRemoves(c: Cleared, appId: int, pathFilter: Option<int>, userName: string)
    ensures ClearUser(c, appId, pathFilter, userName).tables.userBlobs
            == Without(c.tables.userBlobs, RowsOfUsers(c.tables, {UserLookup(c.tables, appId, userName)}, pathFilter))
  {
    if RowsOfUsers(c.tables, {UserLookup(c.tables, appId, userName)}, pathFilter) == {} {
      assert Without(c.tables.userBlobs, {}) == c.tables.userBlobs;
    }
  }

  /** A per-user reset changes the per-user table alone. */
  lemma {:induction false} ClearUsersKeeps(t: Tables, appId: int, pathFilter: Option<int>, usernames: seq<string>)
    ensures OnlyTableChanged(t, ClearUsers(t, appId, pathFilter, usernames).tables, PerUserTable)
    decreases |usernames|
  {
    if usernames != [] {
      ClearUsersKeeps(t, appId, pathFilter, usernames[..|usernames| - 1]);
      ClearUserKeeps(ClearUsers(t, appId, pathFilter, usernames[..|usernames| - 1]), appId, pathFilter, usernames[|usernames| - 1]);
    }
  }

  /** A per-user reset returns the number of rows it removed. */
  lemma {:induction false} ClearUsersCount(t: Tables, appId: int, pathFilter: Option<int>, usernames: seq<string>)
    ensures ClearUsers(t, appId, pathFilter, usernames).count + |ClearUsers(t, appId, pathFilter, usernames).tables.userBlobs.Keys|
            == |t.userBlobs.Keys|
    decreases |usernames|
  {
    if usernames != [] {
      ClearUsersCount(t, appId, pathFilter, usernames[..|usernames| - 1]);
      ClearUserCount(ClearUsers(t, appId, pathFilter, usernames[..|usernames| - 1]), appId, pathFilter, usernames[|usernames| - 1]);
    }
  }

  /** A per-user reset removes exactly the users' rows, at the filtered
      path when there is one. */
  lemma {:induction false} ClearUsersRemoves(t: Tables, appId: int, pathFilter: Option<int>, usernames: seq<string>)
    ensures ClearUsers(t, appId, pathFilter, usernames).tables.userBlobs
            == Without(t.userBlobs, RowsOfUsers(t, UserIds(t, appId, usernames), pathFilter))
    decreases |usernames|
  {
    if usernames == [] {
      assert Without(t.userBlobs, {}) == t.userBlobs;
    } else {
      var prefix := usernames[..|usernames| - 1];
      var before := ClearUsers(t, appId, pathFilter, prefix);
      var id := UserLookup(t, appId, usernames[|usernames| - 1]);
      ClearUsersRemoves(t, appId, pathFilter, prefix);
      ClearUsersKeeps(t, appId, pathFilter, prefix);
      ClearUserRemoves(before, appId, pathFilter, usernames[|usernames| - 1]);
      UserIdsSnoc(t, appId, usernames);
      RowsOfUsersSnoc(t, before.tables, UserIds(t, appId, prefix), id, pathFilter);
    }
  }

  /** The ids of a list of users are those of its front and of its last. */
  lemma UserIdsSnoc(t: Tables, appId: int, usernames: seq<string>)
    requires usernames != []
    ensures UserIds(t, appId, usernames)
            == UserIds(t, appId, usernames[..|usernames| - 1]) + {UserLookup(t, appId, usernames[|usernames| - 1])}
  {
    var prefix := usernames[..|usernames| - 1];
    forall id | id in UserIds(t, appId, usernames)
      ensures id in UserIds(t, appId, prefix) + {UserLookup(t, appId, usernames[|usernames| - 1])}
    {
      var i :| 0 <= i < |usernames| && id == UserLookup(t, appId, usernames[i]);
      if i < |usernames| - 1 {
        assert prefix[i] == usernames[i];
      }
    }
    forall id | id in UserIds(t, appId, prefix)
      ensures id in UserIds(t, appId, usernames)
    {
      var i :| 0 <= i < |prefix| && id == UserLookup(t, appId, prefix[i]);
      assert usernames[i] == prefix[i];
    }
  }

  /** Removing one more user's rows from what a reset left behind. */
  lemma RowsOfUsersSnoc(t: Tables, before: Tables, ids: set<int>, id: int, pathFilter: Option<int>)
    requires before.userBlobs == Without(t.userBlobs, RowsOfUsers(t, ids, pathFilter))
    ensures Without(before.userBlobs, RowsOfUsers(before, {id}, pathFilter))
            == Without(t.userBlobs, RowsOfUsers(t, ids + {id}, pathFilter))
  {
  }

  /** The path a per-user reset is limited to: none for a null or empty
      path, otherwise the path's id (0 when it has no row). */
  function PathFilter(t: Tables, appId: int, path: Option<string>): Option<int>
  {
    if path.None? || path.value == [] then None else Some(PathIdIn(t, appId, path.value))
  }

  /** The outcome of a reset action on the tables, the application being
      the provider's (its row is created when the action resolves it). */
  function ResetOutcome(t: Tables, appName: string, action: ResetAction): Cleared
  {
    var withApp := AddApplication(t, appName);
    var appId := ApplicationIdIn(withApp, appName);
    match action
    case ResetAllShared => Cleared(Apply(t, DeleteAllSharedBlobs), |t.sharedBlobs.Keys|)
    case ResetAllUsers => Cleared(Apply(t, DeleteAllUserBlobs), |t.userBlobs.Keys|)
    case ResetSharedPaths(paths) =>
      if paths == [] then Cleared(t, 0) else ClearPaths(withApp, AllUsersTable, appId, paths)
    case ResetUserPaths(paths) =>
      if paths == [] then Cleared(t, 0) else ClearPaths(withApp, PerUserTable, appId, paths)
    case ResetUsersAt(path, usernames) =>
      ClearUsers(withApp, appId, PathFilter(withApp, appId, path), usernames)
  }

  /** The table a reset action works on. */
  function ActionTable(action: ResetAction): BlobTable
  {
    if action.ResetAllShared? || action.ResetSharedPaths? then AllUsersTable else PerUserTable
  }

  /** Whatever ResetState does, the count it returns is the number of rows
      it deleted from the table it works on, and no other table of page
      settings changes. */
  lemma ResetOutcomeCounts(t: Tables, appName: string, action: ResetAction)
    ensures ResetOutcome(t, appName, action).count + RowCount(ResetOutcome(t, appName, action).tables, ActionTable(action))
            == RowCount(t, ActionTable(action))
    ensures ActionTable(action).AllUsersTable? ==> ResetOutcome(t, appName, action).tables.userBlobs == t.userBlobs
    ensures ActionTable(action).PerUserTable? ==> ResetOutcome(t, appName, action).tables.sharedBlobs == t.sharedBlobs
  {
    match action
    case ResetAllShared =>
    case ResetAllUsers =>
    case ResetSharedPaths(paths) =>
      ResetPathsCounts(t, appName, AllUsersTable, paths);
    case ResetUserPaths(paths) =>
      ResetPathsCounts(t, appName, PerUserTable, paths);
    case ResetUsersAt(path, usernames) =>
      ResetUsersCounts(t, appName, path, usernames);
  }

  /** A per-path reset of the provider's application: its count and its
      frame. */
  lemma ResetPathsCounts(t: Tables, appName: string, table: BlobTable, paths: seq<string>)
    ensures var withApp := AddApplication(t, appName);
            var r := if paths == [] then Cleared(t, 0) else ClearPaths(withApp, table, ApplicationIdIn(withApp, appName), paths);
            r.count + RowCount(r.tables, table) == RowCount(t, table)
    ensures var withApp := AddApplication(t, appName);
            paths != [] ==> OnlyTableChanged(withApp, ClearPaths(withApp, table, ApplicationIdIn(withApp, appName), paths).tables, table)
  {
    var withApp := AddApplication(t, appName);
    if paths != [] {
      ClearPathsKeeps(withApp, table, ApplicationIdIn(withApp, appName), paths);
      ClearPathsCount(withApp, table, ApplicationIdIn(withApp, appName), paths);
    }
  }

  /** A per-user reset of the provider's application: its count and its
      frame. */
  lemma ResetUsersCounts(t: Tables, appName: string, path: Option<string>, usernames: seq<string>)
    ensures var withApp := AddApplication(t, appName);
            var appId := ApplicationIdIn(withApp, appName);
            var r := ClearUsers(withApp, appId, PathFilter(withApp, appId, path), usernames);
            r.count + |r.tables.userBlobs.Keys| == |t.userBlobs.Keys| && OnlyTableChanged(withApp, r.tables, PerUserTable)
  {
    var withApp := AddApplication(t, appName);
    var appId := ApplicationIdIn(withApp, appName);
    ClearUsersKeeps(withApp, appId, PathFilter(withApp, appId, path), usernames);
    ClearUsersCount(withApp, appId, PathFilter(withApp, appId, path), usernames);
  }

  // ---------------------------------------------------------------------
  // ResetUserState by inactivity

  /** ResetUserState(path, date) on the tables: the per-user rows on the
      application's pages (only the given path's, when one is given) whose
      user has been inactive since the date are counted, and deleted when
      there are any. */
  function InactiveCleared(t: Tables, appId: int, since: int, path: Option<string>): Cleared
  {
    var gone := InactiveUserBlobs(t, appId, since, path);
    if |gone| > 0 then Cleared(Apply(t, DeleteInactiveUserBlobs(appId, since, path)), |gone|) else Cleared(t, 0)
  }

  /** The delete of inactive users' rows changes the per-user table alone. */
  lemma InactiveDeleteParts(t: Tables, appId: int, since: int, path: Option<string>)
    ensures var r := Apply(t, DeleteInactiveUserBlobs(appId, since, path));
            && OnlyTableChanged(t, r, PerUserTable)
            && r.userBlobs == Without(t.userBlobs, InactiveUserBlobs(t, appId, since, path))
  {
  }

  /** The inactive reset keeps every other table and every per-user row
      that does not match. */
  lemma InactiveClearedKeeps(t: Tables, appId: int, since: int, path: Option<string>)
    ensures var c := InactiveCleared(t, appId, since, path);
            && OnlyTableChanged(t, c.tables, PerUserTable)
            && c.tables.userBlobs == Without(t.userBlobs, InactiveUserBlobs(t, appId, since, path))
  {
    var gone := InactiveUserBlobs(t, appId, since, path);
    if |gone| > 0 {
      InactiveDeleteParts(t, appId, since, path);
    } else {
      assert gone == {};
      assert Without(t.userBlobs, gone) == t.userBlobs;
    }
  }

  /** The inactive reset returns the number of rows it removed. */
  lemma InactiveClearedCount(t: Tables, appId: int, since: int, path: Option<string>)
    ensures var c := InactiveCleared(t, appId, since, path);
            c.count + |c.tables.userBlobs.Keys| == |t.userBlobs.Keys|
  {
    if |InactiveUserBlobs(t, appId, since, path)| > 0 {
      DeleteInactiveUserBlobsCount(t, appId, since, path);
    }
  }

  /** After the inactive reset no matching row remains. */
  lemma InactiveClearedLeavesNone(t: Tables, appId: int, since: int, path: Option<string>)
    ensures InactiveUserBlobs(InactiveCleared(t, appId, since, path).tables, appId, since, path) == {}
  {
    var gone := InactiveUserBlobs(t, appId, since, path);
    InactiveClearedKeeps(t, appId, since, path);
    var r := InactiveCleared(t, appId, since, path).tables;
    forall k | k in InactiveUserBlobs(r, appId, since, path)
      ensures false
    {
      assert PathOfApplication(t, k.0, appId, path) && InactiveSince(t, k.1, since);
    }
  }
}
