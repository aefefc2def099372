/** The Access personalization provider: it loads, saves and resets the
    Web Parts page settings of a path, answers the paged state queries, and
    resets state in bulk; every call takes a connection holder from the
    cache and resolves the provider's application through its cached id. */
module AccessPersonalization {
  import opened Common
  import opened AccessStore
  import opened ConnectionHelper
  import opened Connections
  import opened Identifiers
  import opened Transactions
  import opened PersonalizationBlobs
  import opened PersonalizationReset
  import Paging
  import Helper = PersonalizationProviderHelper

  // ---------------------------------------------------------------------
  // The state queries

  /** PersonalizationStateQuery: the path and user name patterns a query
      may carry. */
  datatype StateQuery = StateQuery(pathToMatch: Option<string>, usernameToMatch: Option<string>)

  /** A row of the shared-state query: the path, when its shared row was
      last updated, and the length of its settings. */
  datatype SharedStateRow = SharedStateRow(path: string, lastUpdated: int, size: int)

  /** The per-user aggregate of a path: SUM(LEN(PageSettings)), which is
      null when no row matches, and COUNT(*). */
  datatype UserTotals = UserTotals(sizeSum: Option<int>, count: int)

  /** PersonalizationStateInfo: a shared entry with the totals of the
      path's per-user rows, or a per-user entry with its user. */
  datatype StateInfo =
    | SharedStateInfo(path: string, lastUpdated: int, size: int, sizeOfPersonalizations: int, countOfPersonalizations: int)
    | UserStateInfo(path: string, lastUpdated: int, size: int, userName: string, lastActivity: int)

  /** FindState's argument checks, in order: the scope, the page bounds,
      then, when there is a query, its path and, in user scope, its user
      name (each trimmed, non-empty, at most 255 characters). */
  function FindStateCheck(scope: int, query: Option<StateQuery>, pageIndex: int, pageSize: int): (r: Outcome<Helper.ArgError>)
    requires IsInt32(pageIndex) && IsInt32(pageSize)
    ensures Helper.CheckPersonalizationScope(scope).Fail? ==> r == Fail(Helper.ArgumentOutOfRange("scope"))
    ensures Helper.CheckPersonalizationScope(scope).Pass? && Helper.CheckPageIndexAndSize(pageIndex, pageSize).Fail? ==>
              r == Helper.CheckPageIndexAndSize(pageIndex, pageSize)
    ensures r.Pass? <==>
              && Helper.CheckPersonalizationScope(scope).Pass?
              && Helper.CheckPageIndexAndSize(pageIndex, pageSize).Pass?
              && (query.Some? ==>
                    && Helper.CheckAndTrimString(query.value.pathToMatch, "query.PathToMatch", false, MaxStringLength).Ok?
                    && (scope == Helper.UserScope ==>
                          Helper.CheckAndTrimString(query.value.usernameToMatch, "query.UsernameToMatch", false,
                                                    MaxStringLength).Ok?))
  {
    var scopeCheck := Helper.CheckPersonalizationScope(scope);
    var pageCheck := Helper.CheckPageIndexAndSize(pageIndex, pageSize);
    if scopeCheck.Fail? then scopeCheck
    else if pageCheck.Fail? then pageCheck
    else if query.None? then Pass
    else
      var pathCheck := Helper.CheckAndTrimString(query.value.pathToMatch, "query.PathToMatch", false, MaxStringLength);
      if pathCheck.Err? then Fail(pathCheck.error)
      else if scope == Helper.SharedScope then Pass
      else
        var userCheck := Helper.CheckAndTrimString(query.value.usernameToMatch, "query.UsernameToMatch", false,
                                                   MaxStringLength);
        if userCheck.Err? then Fail(userCheck.error) else Pass
  }

  /** The total size of a path's personalizations, a path without per-user
      rows having none. */
  function SizeOfPersonalizations(totals: UserTotals): int
  {
    if totals.sizeSum.Some? then totals.sizeSum.value else 0
  }

  /** A shared entry completed with its path's per-user totals. */
  function SharedInfo(row: SharedStateRow, totals: UserTotals): StateInfo
  {
    SharedStateInfo(row.path, row.lastUpdated, row.size, SizeOfPersonalizations(totals), totals.count)
  }

  /** The second pass of FindSharedState over a page of shared entries. */
  function SharedInfos(rows: seq<SharedStateRow>, totals: string -> UserTotals): seq<StateInfo>
    decreases |rows|
  {
    if rows == [] then []
    else SharedInfos(rows[..|rows| - 1], totals) + [SharedInfo(rows[|rows| - 1], totals(rows[|rows| - 1].path))]
  }

  /** Every entry of the page becomes one shared entry, in order, with its
      path, update time and size, and its path's per-user count. */
  lemma {:induction false} SharedInfosSpec(rows: seq<SharedStateRow>, totals: string -> UserTotals)
    ensures |SharedInfos(rows, totals)| == |rows|
    ensures forall i :: 0 <= i < |rows| ==> SharedInfos(rows, totals)[i] == SharedInfo(rows[i], totals(rows[i].path))
    decreases |rows|
  {
    if rows != [] {
      SharedInfosSpec(rows[..|rows| - 1], totals);
    }
  }

  /** Convert.ToInt32 of the per-user SUM as FindSharedState writes it: the
      null sum of a path without per-user rows throws. */
  function SizeOfPersonalizationsAsWritten(totals: UserTotals): Result<int, Exception>
  {
    if totals.sizeSum.Some? then Ok(totals.sizeSum.value) else Err(InvalidCastException)
  }

  /** The second pass of FindSharedState as written: the first path whose
      per-user sum is null fails the whole query. */
  function SharedInfosAsWritten(rows: seq<SharedStateRow>, totals: string -> UserTotals): Result<seq<StateInfo>, Exception>
    decreases |rows|
  {
    if rows == [] then Ok([])
    else
      var last := rows[|rows| - 1];
      match SharedInfosAsWritten(rows[..|rows| - 1], totals)
      case Err(e) => Err(e)
      case Ok(infos) =>
        match SizeOfPersonalizationsAsWritten(totals(last.path))
        case Err(e) => Err(e)
        case Ok(size) => Ok(infos + [SharedStateInfo(last.path, last.lastUpdated, last.size, size, totals(last.path).count)])
  }

  /** As written, the second pass succeeds exactly when every path on the
      page has per-user rows to sum, and then agrees with SharedInfos. */
  lemma {:induction false} SharedInfosAsWrittenSpec(rows: seq<SharedStateRow>, totals: string -> UserTotals)
    ensures SharedInfosAsWritten(rows, totals).Ok? <==> forall i :: 0 <= i < |rows| ==> totals(rows[i].path).sizeSum.Some?
    ensures SharedInfosAsWritten(rows, totals).Ok? ==> SharedInfosAsWritten(rows, totals).value == SharedInfos(rows, totals)
    ensures SharedInfosAsWritten(rows, totals).Err? ==> SharedInfosAsWritten(rows, totals).error == InvalidCastException
    decreases |rows|
  {
    if rows != [] {
      var prefix := rows[..|rows| - 1];
      SharedInfosAsWrittenSpec(prefix, totals);
      assert forall i :: 0 <= i < |prefix| ==> prefix[i] == rows[i];
    }
  }

  /** The totals of a path that no user has personalized. */
  function NoUserRows(path: string): UserTotals
  {
    UserTotals(None, 0)
  }

  /** A page holding one shared entry whose path no user has personalized:
      as written the query throws, where the entry with no personalizations
      is meant. */
  lemma SharedPageWithoutUserRows()
    ensures SharedInfosAsWritten([SharedStateRow("~/Default.aspx", 0, 12)], NoUserRows) == Err(InvalidCastException)
    ensures SharedInfos([SharedStateRow("~/Default.aspx", 0, 12)], NoUserRows) == [SharedStateInfo("~/Default.aspx", 0, 12, 0, 0)]
  {
    var rows := [SharedStateRow("~/Default.aspx", 0, 12)];
    assert rows[..0] == [];
  }

  // ---------------------------------------------------------------------
  // The provider

  class AccessPersonalizationProvider {
    const db: Database
    const connections: ConnectionCache
    const idCache: ApplicationIdCache
    const databaseFileName: string

    /** Between calls: no transaction, no holder in use, and the cached
        application id, if any, is the application's. */
    ghost predicate Valid()
      reads this, db, connections, connections.Holders(), idCache
    {
      Quiet(db, connections) && idCache.Consistent(db.tables)
    }

    constructor (db: Database, connections: ConnectionCache, idCache: ApplicationIdCache, databaseFileName: string)
      ensures this.db == db && this.connections == connections && this.idCache == idCache
      ensures this.databaseFileName == databaseFileName
    {
      this.db := db;
      this.connections := connections;
      this.idCache := idCache;
      this.databaseFileName := databaseFileName;
    }

    /** The application name the provider resolves. */
    function AppName(): string
      reads idCache
    {
      Truncated(idCache.EffectiveName())
    }

    /** The tables once the application's row exists. */
    function WithApplication(t: Tables): Tables
      reads idCache
    {
      AddApplication(t, AppName())
    }

    /** The ApplicationName getter: a null or empty name is replaced by the
        default name, which is kept. */
    method GetApplicationName() returns (name: string)
      modifies idCache
      ensures name == old(idCache.EffectiveName()) && idCache.appName == name
      ensures idCache.EffectiveName() == old(idCache.EffectiveName())
      ensures idCache.appId == old(idCache.appId) && idCache.cacheDate == old(idCache.cacheDate)
    {
      if idCache.substitutesDefault && idCache.appName == [] {
        idCache.appName := idCache.defaultName;
      }
      name := idCache.appName;
    }

    /** The ApplicationName setter: a name longer than 255 characters is
        refused; any other name is stored and the cached id is kept, so the
        provider stays valid only while that id is still the new name's (or
        none is cached). */
    method SetApplicationName(value: string) returns (r: Outcome<Exception>)
      requires Valid()
      modifies idCache
      ensures |value| > MaxApplicationNameLength ==>
                r == Fail(ProviderException("ApplicationName exceeded max length of 255"))
                && idCache.appName == old(idCache.appName)
      ensures |value| <= MaxApplicationNameLength ==> r.Pass? && idCache.appName == value
      ensures idCache.appId == old(idCache.appId) && idCache.cacheDate == old(idCache.cacheDate)
      ensures Valid() <==> idCache.Consistent(db.tables)
      ensures old(idCache.appId) == 0 || idCache.EffectiveName() == old(idCache.EffectiveName()) ==> Valid()
    {
      r := idCache.SetPersonalizationApplicationNameAsWritten(value);
    }

    /** GetApplicationID as the calls use it: the application's id, its row
        created if it was missing. */
    method ResolveApplication(holderCreateDate: int, now: int) returns (appId: int)
      requires db.Valid() && idCache.Consistent(db.tables)
      modifies db, idCache
      ensures db.Valid() && db.snapshot == old(db.snapshot) && idCache.Consistent(db.tables)
      ensures AppName() == old(AppName())
      ensures db.tables == WithApplication(old(db.tables))
      ensures appId >= 1 && appId == ApplicationIdIn(db.tables, AppName())
    {
      var r := idCache.GetApplicationId(db, holderCreateDate, now);
      appId := r.value;
    }

    // -------------------------------------------------------------------
    // LoadPersonalizationBlobs

    /** LoadPersonalizationBlobs before the holder is released: for a known
        path the shared blob is read and decoded; then, for a user name
        that is not null and a known user, the user's activity is stamped
        and the user's blob read and decoded. */
    method LoadBlobs(holderCreateDate: int, path: string, userName: Option<string>, now: nat)
      returns (r: Result<LoadedBlobs, Exception>)
      requires db.Valid() && db.snapshot.None? && idCache.Consistent(db.tables)
      modifies db, idCache
      ensures db.Valid() && db.snapshot.None? && idCache.Consistent(db.tables) && AppName() == old(AppName())
      ensures var withApp := WithApplication(old(db.tables));
              var appId := ApplicationIdIn(withApp, AppName());
              && r == LoadResult(withApp, appId, path, userName)
              && db.tables == LoadVisited(withApp, appId, path, userName, RoundToSeconds(now))
    {
      var appId := ResolveApplication(holderCreateDate, now);
      var pathId := GetPathID(db, appId, path, false);
      if pathId == 0 {
        return Ok(LoadedBlobs(None, None));
      }
      var sharedValue := if pathId in db.tables.sharedBlobs then Some(db.tables.sharedBlobs[pathId].settings) else None;
      var shared := Deserialize(sharedValue);
      if shared.Err? {
        return Err(shared.error);
      }
      if userName.None? {
        return Ok(LoadedBlobs(shared.value, None));
      }
      var userId := GetUserID(db, appId, userName, false, false, now);
      if userId == 0 {
        return Ok(LoadedBlobs(shared.value, None));
      }
      ghost var before := db.tables;
      ActivityUpdate(db.tables, userId, RoundToSeconds(now));
      var touched := db.Execute(UpdateUserActivity(userId, RoundToSeconds(now)));
      assert db.tables.userBlobs == before.userBlobs;
      var userValue := if (pathId, userId) in db.tables.userBlobs then Some(db.tables.userBlobs[(pathId, userId)].settings)
                       else None;
      var user := Deserialize(userValue);
      if user.Err? {
        return Err(user.error);
      }
      return Ok(LoadedBlobs(shared.value, user.value));
    }

    /** LoadPersonalizationBlobs once the holder is taken, up to its
        release. */
    method LoadAndRelease(holder: ConnectionHolder, path: string, userName: Option<string>, now: nat)
      returns (r: Result<LoadedBlobs, Exception>)
      requires db.Valid() && db.snapshot.None? && idCache.Consistent(db.tables) && connections.InUse(holder)
      modifies db, idCache, holder
      ensures Valid() && AppName() == old(AppName())
      ensures var withApp := WithApplication(old(db.tables));
              var appId := ApplicationIdIn(withApp, AppName());
              && r == LoadResult(withApp, appId, path, userName)
              && db.tables == LoadVisited(withApp, appId, path, userName, RoundToSeconds(now))
    {
      r := LoadBlobs(holder.createDate, path, userName, now);
      Release(db, connections, holder);
    }

    /** LoadPersonalizationBlobs: the page's shared blob and the user's
        blob, as LoadResult reads them from the tables; a failure to take
        a connection leaves everything as it was. */
    method LoadPersonalizationBlobs(path: string, userName: Option<string>, env: Environment, now: nat, openSucceeds: bool)
      returns (r: Result<LoadedBlobs, Exception>, ghost connected: bool)
      requires Valid()
      modifies db, idCache, connections, connections.Holders()
      ensures Valid() && AppName() == old(AppName())
      ensures !connected ==> r.Err? && db.tables == old(db.tables)
      ensures connected ==>
                var withApp := WithApplication(old(db.tables));
                var appId := ApplicationIdIn(withApp, AppName());
                && r == LoadResult(withApp, appId, path, userName)
                && db.tables == LoadVisited(withApp, appId, path, userName, RoundToSeconds(now))
    {
      var connection := Acquire(db, connections, databaseFileName, env, now, openSucceeds);
      if connection.Err? {
        return Err(connection.error), false;
      }
      r := LoadAndRelease(connection.value, path, userName, now);
      connected := true;
    }

    // -------------------------------------------------------------------
    // SavePersonalizationBlob

    /** The shared row's upsert: UPDATE, and INSERT when the UPDATE did not
        affect exactly one row. */
    method StoreSharedBlob(pathId: int, blob: Blob)
      requires db.Valid()
      modifies db
      ensures db.Valid() && db.snapshot == old(db.snapshot)
      ensures db.tables == old(db.tables).(sharedBlobs := old(db.tables).sharedBlobs[pathId := blob])
    {
      SharedBlobUpsert(db.tables, pathId, blob);
      var updated := db.Execute(UpdateSharedBlob(pathId, blob));
      if updated != 1 {
        var inserted := db.Execute(InsertSharedBlob(pathId, blob));
      }
    }

    /** The same for a user's row at a path. */
    method StoreUserBlob(pathId: int, userId: int, blob: Blob)
      requires db.Valid()
      modifies db
      ensures db.Valid() && db.snapshot == old(db.snapshot)
      ensures db.tables == old(db.tables).(userBlobs := old(db.tables).userBlobs[(pathId, userId) := blob])
    {
      UserBlobUpsert(db.tables, pathId, userId, blob);
      var updated := db.Execute(UpdateUserBlob(pathId, userId, blob));
      if updated != 1 {
        var inserted := db.Execute(InsertUserBlob(pathId, userId, blob));
      }
    }

    /** SavePersonalizationBlob before the holder is released: the path is
        looked up or created; with no user name the shared row is stored,
        otherwise the user is looked up or created, the user's activity
        stamped and the user's row stored. No transaction is used. */
    method SaveBlob(holderCreateDate: int, path: string, userName: Option<string>, blobValue: string, now: nat)
      requires db.Valid() && db.snapshot.None? && idCache.Consistent(db.tables)
      modifies db, idCache
      ensures db.Valid() && db.snapshot.None? && idCache.Consistent(db.tables) && AppName() == old(AppName())
      ensures var withApp := WithApplication(old(db.tables));
              db.tables == BlobSaved(withApp, ApplicationIdIn(withApp, AppName()), path, userName, blobValue, RoundToSeconds(now))
    {
      var appId := ResolveApplication(holderCreateDate, now);
      ghost var withApp := db.tables;
      var pathId := GetPathID(db, appId, path, true);
      if pathId == 0 {
        assert false;
      }
      var stamp := RoundToSeconds(now);
      if userName.None? || |userName.value| == 0 {
        StoreSharedBlob(pathId, Blob(blobValue, stamp));
      } else {
        var userId := GetUserID(db, appId, userName, true, false, now);
        if userId == 0 {
          assert false;
        }
        ghost var withUser := db.tables;
        ActivityUpdate(db.tables, userId, stamp);
        var touched := db.Execute(UpdateUserActivity(userId, stamp));
        assert db.tables.userBlobs == withUser.userBlobs;
        StoreUserBlob(pathId, userId, Blob(blobValue, stamp));
      }
      SaveKeepsApplications(withApp, appId, path, userName, blobValue, stamp);
    }

    /** SavePersonalizationBlob once the holder is taken, up to its
        release. */
    method SaveAndRelease(holder: ConnectionHolder, path: string, userName: Option<string>, blobValue: string, now: nat)
      requires db.Valid() && db.snapshot.None? && idCache.Consistent(db.tables) && connections.InUse(holder)
      modifies db, idCache, holder
      ensures Valid() && AppName() == old(AppName())
      ensures var withApp := WithApplication(old(db.tables));
              db.tables == BlobSaved(withApp, ApplicationIdIn(withApp, AppName()), path, userName, blobValue, RoundToSeconds(now))
    {
      SaveBlob(holder.createDate, path, userName, blobValue, now);
      Release(db, connections, holder);
    }

    /** SavePersonalizationBlob: the blob is encoded first, then stored as
        the path's shared settings (no user name) or the user's; loading
        the page afterwards returns what was saved. */
    method SavePersonalizationBlob(path: string, userName: Option<string>, dataBlob: Option<seq<Byte>>,
                                   env: Environment, now: nat, openSucceeds: bool)
      returns (r: Outcome<Exception>)
      requires Valid()
      modifies db, idCache, connections, connections.Holders()
      ensures Valid() && AppName() == old(AppName())
      ensures r.Fail? ==> db.tables == old(db.tables)
      ensures r.Pass? ==>
                var withApp := WithApplication(old(db.tables));
                var appId := ApplicationIdIn(withApp, AppName());
                && db.tables == BlobSaved(withApp, appId, path, userName, Serialize(dataBlob), RoundToSeconds(now))
                && (Decodable(old(db.tables)) ==>
                      var loaded := LoadResult(db.tables, appId, path, userName);
                      && loaded.Ok?
                      && (userName.None? || userName.value == [] ==> loaded.value == LoadedBlobs(Normalized(dataBlob), None))
                      && (userName.Some? && userName.value != [] ==> loaded.value.user == Normalized(dataBlob)))
    {
      var blobValue := Serialize(dataBlob);
      var connection := Acquire(db, connections, databaseFileName, env, now, openSucceeds);
      if connection.Err? {
        return Fail(connection.error);
      }
      ghost var before := db.tables;
      SaveAndRelease(connection.value, path, userName, blobValue, now);
      ghost var withApp := WithApplication(before);
      if Decodable(before) {
        AddApplicationValid(before, AppName());
        ApplicationIdSpec(before, AppName(), AppName());
        SaveThenLoad(withApp, ApplicationIdIn(withApp, AppName()), path, userName, dataBlob, RoundToSeconds(now));
      }
      return Pass;
    }

    // -------------------------------------------------------------------
    // ResetPersonalizationBlob

    /** ResetPersonalizationBlob before the holder is released: for a known
        path, the shared row is deleted when there is no user name, and
        otherwise the row of a known user at the path. */
    method ResetBlob(holderCreateDate: int, path: string, userName: Option<string>, now: nat)
      requires db.Valid() && db.snapshot.None? && idCache.Consistent(db.tables)
      modifies db, idCache
      ensures db.Valid() && db.snapshot.None? && idCache.Consistent(db.tables) && AppName() == old(AppName())
      ensures var withApp := WithApplication(old(db.tables));
              db.tables == BlobReset(withApp, ApplicationIdIn(withApp, AppName()), path, userName)
    {
      var appId := ResolveApplication(holderCreateDate, now);
      ghost var withApp := db.tables;
      var pathId := GetPathID(db, appId, path, false);
      if pathId != 0 {
        if userName.None? || |userName.value| == 0 {
          ApplicationIdsStable(db.tables, DeleteSharedBlobsAt(pathId), AppName());
          var deleted := db.Execute(DeleteSharedBlobsAt(pathId));
        } else {
          var userId := GetUserID(db, appId, userName, false, false, now);
          if userId != 0 {
            ApplicationIdsStable(db.tables, DeleteUserBlobsOf(userId, Some(pathId)), AppName());
            var deleted := db.Execute(DeleteUserBlobsOf(userId, Some(pathId)));
          }
        }
      }
    }

    /** ResetPersonalizationBlob once the holder is taken, up to its
        release. */
    method ResetBlobAndRelease(holder: ConnectionHolder, path: string, userName: Option<string>, now: nat)
      requires db.Valid() && db.snapshot.None? && idCache.Consistent(db.tables) && connections.InUse(holder)
      modifies db, idCache, holder
      ensures Valid() && AppName() == old(AppName())
      ensures var withApp := WithApplication(old(db.tables));
              db.tables == BlobReset(withApp, ApplicationIdIn(withApp, AppName()), path, userName)
    {
      ResetBlob(holder.createDate, path, userName, now);
      Release(db, connections, holder);
    }

    /** ResetPersonalizationBlob: the shared settings of the path, or the
        user's, are deleted, so that loading the page afterwards finds
        none. */
    method ResetPersonalizationBlob(path: string, userName: Option<string>, env: Environment, now: nat, openSucceeds: bool)
      returns (r: Outcome<Exception>)
      requires Valid()
      modifies db, idCache, connections, connections.Holders()
      ensures Valid() && AppName() == old(AppName())
      ensures r.Fail? ==> db.tables == old(db.tables)
      ensures r.Pass? ==>
                var withApp := WithApplication(old(db.tables));
                var appId := ApplicationIdIn(withApp, AppName());
                && db.tables == BlobReset(withApp, appId, path, userName)
                && (Decodable(old(db.tables)) ==>
                      var loaded := LoadResult(db.tables, appId, path, userName);
                      && loaded.Ok?
                      && (userName.None? || userName.value == [] ==> loaded.value == LoadedBlobs(None, None))
                      && (userName.Some? && userName.value != [] ==> loaded.value.user.None?))
    {
      var connection := Acquire(db, connections, databaseFileName, env, now, openSucceeds);
      if connection.Err? {
        return Fail(connection.error);
      }
      ghost var before := db.tables;
      ResetBlobAndRelease(connection.value, path, userName, now);
      ghost var withApp := WithApplication(before);
      if Decodable(before) {
        ResetThenLoad(withApp, ApplicationIdIn(withApp, AppName()), path, userName);
      }
      return Pass;
    }

    // -------------------------------------------------------------------
    // ResetAllState

    /** ResetAllState before the holder is released: the rows of the table
        are counted, then all of them deleted, whatever application they
        belong to. */
    method ClearAll(table: BlobTable) returns (count: nat)
      requires db.Valid() && db.snapshot.None? && idCache.Consistent(db.tables)
      modifies db
      ensures db.Valid() && db.snapshot.None? && idCache.Consistent(db.tables)
      ensures db.tables == Apply(old(db.tables), DeleteAllStatement(table)) && RowCount(db.tables, table) == 0
      ensures count == RowCount(old(db.tables), table)
    {
      count := RowCount(db.tables, table);
      DeleteAllParts(db.tables, table);
      var deleted := db.Execute(DeleteAllStatement(table));
    }

    /** ResetAllState once the holder is taken, up to its release. */
    method ClearAllAndRelease(holder: ConnectionHolder, table: BlobTable) returns (count: nat)
      requires db.Valid() && db.snapshot.None? && idCache.Consistent(db.tables) && connections.InUse(holder)
      modifies db, holder
      ensures Valid()
      ensures db.tables == Apply(old(db.tables), DeleteAllStatement(table)) && RowCount(db.tables, table) == 0
      ensures count == RowCount(old(db.tables), table)
    {
      count := ClearAll(table);
      Release(db, connections, holder);
    }

    /** ResetAllState: every row of the table is deleted and their number
        returned. */
    method ResetAllState(table: BlobTable, env: Environment, now: nat, openSucceeds: bool)
      returns (r: Result<nat, Exception>)
      requires Valid()
      modifies db, connections, connections.Holders()
      ensures Valid()
      ensures r.Err? ==> db.tables == old(db.tables)
      ensures r.Ok? ==> db.tables == Apply(old(db.tables), DeleteAllStatement(table)) && RowCount(db.tables, table) == 0
      ensures r.Ok? ==> r.value == RowCount(old(db.tables), table)
    {
      var connection := Acquire(db, connections, databaseFileName, env, now, openSucceeds);
      if connection.Err? {
        return Err(connection.error);
      }
      var count := ClearAllAndRelease(connection.value, table);
      return Ok(count);
    }

    // -------------------------------------------------------------------
    // ResetStatePerPaths

    /** One round of ResetStatePerPaths' loop: the path's id, the count
        of its rows, and their delete when there are any. */
    method ClearOnePath(table: BlobTable, appId: int, path: string, count: nat, ghost done: Cleared) returns (newCount: nat)
      requires db.Valid() && db.tables == done.tables && count == done.count
      modifies db
      ensures db.Valid() && db.snapshot == old(db.snapshot)
      ensures db.tables == ClearPath(done, table, appId, path).tables
      ensures newCount == ClearPath(done, table, appId, path).count
    {
      ClearPathByStatement(done, table, appId, path);
      var pathId := GetPathID(db, appId, path, false);
      var rows := PathRows(db.tables, table, pathId);
      newCount := count;
      if rows > 0 {
        var deleted := db.Execute(DeletePathStatement(table, pathId));
        newCount := count + rows;
      }
    }

    /** ResetStatePerPaths' loop over the paths, in order. */
    method ClearPathsLoop(table: BlobTable, appId: int, paths: seq<string>) returns (count: nat)
      requires db.Valid()
      modifies db
      ensures db.Valid() && db.snapshot == old(db.snapshot)
      ensures Cleared(db.tables, count) == ClearPaths(old(db.tables), table, appId, paths)
    {
      ghost var start := db.tables;
      ghost var done := Cleared(start, 0);
      count := 0;
      var i := 0;
      while i < |paths|
        invariant 0 <= i <= |paths|
        invariant db.Valid() && db.snapshot == old(db.snapshot)
        invariant done == ClearPaths(start, table, appId, paths[..i])
        invariant db.tables == done.tables && count == done.count
      {
        ClearPathsSnoc(start, table, appId, paths, i);
        count := ClearOnePath(table, appId, paths[i], count, done);
        done := ClearPath(done, table, appId, paths[i]);
        i := i + 1;
      }
      assert paths[..i] == paths;
    }

    /** ResetStatePerPaths from the application's id to COMMIT: inside one
        transaction, each path's rows in the table are counted, and
        deleted and added to the count when there are any. */
    method ClearPathsInTransaction(holderCreateDate: int, table: BlobTable, paths: seq<string>, now: nat)
      returns (count: nat)
      requires db.Valid() && db.snapshot.None? && idCache.Consistent(db.tables)
      modifies db, idCache
      ensures db.Valid() && db.snapshot.None? && idCache.Consistent(db.tables) && AppName() == old(AppName())
      ensures var withApp := WithApplication(old(db.tables));
              Cleared(db.tables, count) == ClearPaths(withApp, table, ApplicationIdIn(withApp, AppName()), paths)
    {
      var appId := ResolveApplication(holderCreateDate, now);
      ghost var withApp := db.tables;
      db.Begin();
      count := ClearPathsLoop(table, appId, paths);
      ClearPathsKeeps(withApp, table, appId, paths);
      db.Commit();
    }

    /** ResetStatePerPaths once the holder is taken, up to its release. */
    method ClearPathsAndRelease(holder: ConnectionHolder, table: BlobTable, paths: seq<string>, now: nat)
      returns (count: nat)
      requires db.Valid() && db.snapshot.None? && idCache.Consistent(db.tables) && connections.InUse(holder)
      modifies db, idCache, holder
      ensures Valid() && AppName() == old(AppName())
      ensures var withApp := WithApplication(old(db.tables));
              Cleared(db.tables, count) == ClearPaths(withApp, table, ApplicationIdIn(withApp, AppName()), paths)
    {
      count := ClearPathsInTransaction(holder.createDate, table, paths, now);
      Release(db, connections, holder);
    }

    /** ResetStatePerPaths: no paths reset nothing and take no connection;
        otherwise the rows of the paths, in the application, are deleted
        from the table and their number returned. */
    method ResetStatePerPaths(table: BlobTable, paths: seq<string>, env: Environment, now: nat, openSucceeds: bool)
      returns (r: Result<nat, Exception>)
      requires Valid()
      modifies db, idCache, connections, connections.Holders()
      ensures Valid() && AppName() == old(AppName())
      ensures paths == [] ==> r == Ok(0) && db.tables == old(db.tables)
      ensures r.Err? ==> db.tables == old(db.tables)
      ensures r.Ok? && paths != [] ==>
                var withApp := WithApplication(old(db.tables));
                Cleared(db.tables, r.value) == ClearPaths(withApp, table, ApplicationIdIn(withApp, AppName()), paths)
    {
      if |paths| == 0 {
        return Ok(0);
      }
      var connection := Acquire(db, connections, databaseFileName, env, now, openSucceeds);
      if connection.Err? {
        return Err(connection.error);
      }
      var count := ClearPathsAndRelease(connection.value, table, paths, now);
      return Ok(count);
    }

    // -------------------------------------------------------------------
    // ResetUserStatePerUsers

    /** One round of ResetUserStatePerUsers' loop: the user's id, the
        count of the user's rows, and their delete when there are any. */
    method ClearOneUser(appId: int, pathFilter: Option<int>, userName: string, count: nat, now: nat, ghost done: Cleared)
      returns (newCount: nat)
      requires db.Valid() && appId != 0 && db.tables == done.tables && count == done.count
      modifies db
      ensures db.Valid() && db.snapshot == old(db.snapshot)
      ensures db.tables == ClearUser(done, appId, pathFilter, userName).tables
      ensures newCount == ClearUser(done, appId, pathFilter, userName).count
    {
      ClearUserByStatement(done, appId, pathFilter, userName);
      var userId := GetUserID(db, appId, Some(userName), false, false, now);
      var rows := UserRows(db.tables, userId, pathFilter);
      newCount := count;
      if rows > 0 {
        var deleted := db.Execute(DeleteUserBlobsOf(userId, pathFilter));
        newCount := count + rows;
      }
    }

    /** ResetUserStatePerUsers' loop over the users, in order. */
    method ClearUsersLoop(appId: int, pathFilter: Option<int>, usernames: seq<string>, now: nat) returns (count: nat)
      requires db.Valid() && appId != 0
      modifies db
      ensures db.Valid() && db.snapshot == old(db.snapshot)
      ensures Cleared(db.tables, count) == ClearUsers(old(db.tables), appId, pathFilter, usernames)
    {
      ghost var start := db.tables;
      ghost var done := Cleared(start, 0);
      count := 0;
      var i := 0;
      while i < |usernames|
        invariant 0 <= i <= |usernames|
        invariant db.Valid() && db.snapshot == old(db.snapshot)
        invariant done == ClearUsers(start, appId, pathFilter, usernames[..i])
        invariant db.tables == done.tables && count == done.count
      {
        ClearUsersSnoc(start, appId, pathFilter, usernames, i);
        count := ClearOneUser(appId, pathFilter, usernames[i], count, now, done);
        done := ClearUser(done, appId, pathFilter, usernames[i]);
        i := i + 1;
      }
      assert usernames[..i] == usernames;
    }

    /** ResetUserStatePerUsers from the application's id to COMMIT: the
        path (when one is given) is looked up first, then inside one
        transaction each user's rows (at that path) are counted, and
        deleted and added to the count when there are any. */
    method ClearUsersInTransaction(holderCreateDate: int, path: Option<string>, usernames: seq<string>, now: nat)
      returns (count: nat)
      requires db.Valid() && db.snapshot.None? && idCache.Consistent(db.tables)
      modifies db, idCache
      ensures db.Valid() && db.snapshot.None? && idCache.Consistent(db.tables) && AppName() == old(AppName())
      ensures var withApp := WithApplication(old(db.tables));
              var appId := ApplicationIdIn(withApp, AppName());
              Cleared(db.tables, count) == ClearUsers(withApp, appId, PathFilter(withApp, appId, path), usernames)
    {
      var appId := ResolveApplication(holderCreateDate, now);
      ghost var withApp := db.tables;
      var pathFilter: Option<int> := None;
      if path.Some? && |path.value| > 0 {
        var pathId := GetPathID(db, appId, path.value, false);
        pathFilter := Some(pathId);
      }
      assert pathFilter == PathFilter(withApp, appId, path);
      db.Begin();
      count := ClearUsersLoop(appId, pathFilter, usernames, now);
      ClearUsersKeeps(withApp, appId, pathFilter, usernames);
      db.Commit();
    }

    /** ResetUserStatePerUsers once the holder is taken, up to its
        release. */
    method ClearUsersAndRelease(holder: ConnectionHolder, path: Option<string>, usernames: seq<string>, now: nat)
      returns (count: nat)
      requires db.Valid() && db.snapshot.None? && idCache.Consistent(db.tables) && connections.InUse(holder)
      modifies db, idCache, holder
      ensures Valid() && AppName() == old(AppName())
      ensures var withApp := WithApplication(old(db.tables));
              var appId := ApplicationIdIn(withApp, AppName());
              Cleared(db.tables, count) == ClearUsers(withApp, appId, PathFilter(withApp, appId, path), usernames)
    {
      count := ClearUsersInTransaction(holder.createDate, path, usernames, now);
      Release(db, connections, holder);
    }

    /** ResetUserStatePerUsers: the users' rows (at the path, when one is
        given) are deleted from the per-user table and their number
        returned. */
    method ResetUserStatePerUsers(path: Option<string>, usernames: seq<string>, env: Environment, now: nat, openSucceeds: bool)
      returns (r: Result<nat, Exception>)
      requires Valid()
      modifies db, idCache, connections, connections.Holders()
      ensures Valid() && AppName() == old(AppName())
      ensures r.Err? ==> db.tables == old(db.tables)
      ensures r.Ok? ==>
                var withApp := WithApplication(old(db.tables));
                var appId := ApplicationIdIn(withApp, AppName());
                Cleared(db.tables, r.value) == ClearUsers(withApp, appId, PathFilter(withApp, appId, path), usernames)
    {
      var connection := Acquire(db, connections, databaseFileName, env, now, openSucceeds);
      if connection.Err? {
        return Err(connection.error);
      }
      var count := ClearUsersAndRelease(connection.value, path, usernames, now);
      return Ok(count);
    }

    // -------------------------------------------------------------------
    // ResetState

    /** ResetSharedState and the private ResetUserState(paths, usernames):
        the reset an action names, with its count. */
    method RunResetAction(action: ResetAction, env: Environment, now: nat, openSucceeds: bool)
      returns (r: Result<nat, Exception>)
      requires Valid()
      modifies db, idCache, connections, connections.Holders()
      ensures Valid() && AppName() == old(AppName())
      ensures r.Err? ==> db.tables == old(db.tables)
      ensures r.Ok? ==> Cleared(db.tables, r.value) == ResetOutcome(old(db.tables), AppName(), action)
    {
      match action
      case ResetAllShared =>
        r := ResetAllState(AllUsersTable, env, now, openSucceeds);
      case ResetSharedPaths(paths) =>
        r := ResetStatePerPaths(AllUsersTable, paths, env, now, openSucceeds);
      case ResetAllUsers =>
        r := ResetAllState(PerUserTable, env, now, openSucceeds);
      case ResetUserPaths(paths) =>
        r := ResetStatePerPaths(PerUserTable, paths, env, now, openSucceeds);
      case ResetUsersAt(path, usernames) =>
        r := ResetUserStatePerUsers(path, usernames, env, now, openSucceeds);
    }

    /** ResetState: the arguments are checked (a failed check throws its
        argument exception and changes nothing), then the reset the scope
        and arguments select runs; the count returned is the number of rows
        deleted from the table that reset works on, and the other table of
        page settings is left as it was. */
    method ResetState(scope: int, paths: Option<seq<Option<string>>>, usernames: Option<seq<Option<string>>>,
                      env: Environment, now: nat, openSucceeds: bool)
      returns (r: Result<nat, Exception>)
      requires Valid()
      modifies db, idCache, connections, connections.Holders()
      ensures Valid() && AppName() == old(AppName())
      ensures ResetPlan(scope, paths, usernames).Err? ==>
                r == Err(ArgumentException(ResetPlan(scope, paths, usernames).error)) && db.tables == old(db.tables)
      ensures r.Err? ==> db.tables == old(db.tables)
      ensures r.Ok? ==>
                && ResetPlan(scope, paths, usernames).Ok?
                && Cleared(db.tables, r.value) == ResetOutcome(old(db.tables), AppName(), ResetPlan(scope, paths, usernames).value)
      ensures r.Ok? ==>
                var table := ActionTable(ResetPlan(scope, paths, usernames).value);
                && r.value + RowCount(db.tables, table) == RowCount(old(db.tables), table)
                && (table.AllUsersTable? ==> db.tables.userBlobs == old(db.tables).userBlobs)
                && (table.PerUserTable? ==> db.tables.sharedBlobs == old(db.tables).sharedBlobs)
    {
      var plan := ResetPlan(scope, paths, usernames);
      if plan.Err? {
        return Err(ArgumentException(plan.error));
      }
      ResetOutcomeCounts(db.tables, AppName(), plan.value);
      r := RunResetAction(plan.value, env, now, openSucceeds);
    }

    // -------------------------------------------------------------------
    // ResetUserState by inactivity

    /** ResetUserState(path, date) before the holder is released: the rows
        of users inactive since the date (cut to whole seconds) on the
        application's pages, or on the given path only, are counted and,
        when there are any, deleted. No transaction is used. */
    method ClearInactive(holderCreateDate: int, path: Option<string>, userInactiveSinceDate: nat, now: nat)
      returns (count: nat)
      requires db.Valid() && db.snapshot.None? && idCache.Consistent(db.tables)
      modifies db, idCache
      ensures db.Valid() && db.snapshot.None? && idCache.Consistent(db.tables) && AppName() == old(AppName())
      ensures var withApp := WithApplication(old(db.tables));
              Cleared(db.tables, count)
              == InactiveCleared(withApp, ApplicationIdIn(withApp, AppName()), RoundToSeconds(userInactiveSinceDate), path)
    {
      var appId := ResolveApplication(holderCreateDate, now);
      var since := RoundToSeconds(userInactiveSinceDate);
      count := |InactiveUserBlobs(db.tables, appId, since, path)|;
      if count > 0 {
        ApplicationIdsStable(db.tables, DeleteInactiveUserBlobs(appId, since, path), AppName());
        var deleted := db.Execute(DeleteInactiveUserBlobs(appId, since, path));
      }
    }

    /** ResetUserState(path, date) once the holder is taken, up to its
        release. */
    method ClearInactiveAndRelease(holder: ConnectionHolder, path: Option<string>, userInactiveSinceDate: nat, now: nat)
      returns (count: nat)
      requires db.Valid() && db.snapshot.None? && idCache.Consistent(db.tables) && connections.InUse(holder)
      modifies db, idCache, holder
      ensures Valid() && AppName() == old(AppName())
      ensures var withApp := WithApplication(old(db.tables));
              Cleared(db.tables, count)
              == InactiveCleared(withApp, ApplicationIdIn(withApp, AppName()), RoundToSeconds(userInactiveSinceDate), path)
    {
      count := ClearInactive(holder.createDate, path, userInactiveSinceDate, now);
      Release(db, connections, holder);
    }

    /** ResetUserState(path, date): the path is checked (trimmed, not
        empty, at most 255 characters; it may be null); then the per-user
        rows of the application's users inactive since the date are
        deleted, only the path's when one is given, and their number
        returned. No such row is left, and nothing else changes. */
    method ResetUserState(path: Option<string>, userInactiveSinceDate: nat, env: Environment, now: nat, openSucceeds: bool)
      returns (r: Result<nat, Exception>)
      requires Valid()
      modifies db, idCache, connections, connections.Holders()
      ensures Valid() && AppName() == old(AppName())
      ensures Helper.CheckAndTrimString(path, "path", false, MaxStringLength).Err? ==>
                r == Err(ArgumentException(Helper.CheckAndTrimString(path, "path", false, MaxStringLength).error))
      ensures r.Err? ==> db.tables == old(db.tables)
      ensures r.Ok? ==>
                var checked := Helper.CheckAndTrimString(path, "path", false, MaxStringLength);
                var withApp := WithApplication(old(db.tables));
                var appId := ApplicationIdIn(withApp, AppName());
                var since := RoundToSeconds(userInactiveSinceDate);
                && checked.Ok?
                && Cleared(db.tables, r.value) == InactiveCleared(withApp, appId, since, checked.value)
                && OnlyTableChanged(withApp, db.tables, PerUserTable)
                && r.value + |db.tables.userBlobs.Keys| == |old(db.tables).userBlobs.Keys|
                && InactiveUserBlobs(db.tables, appId, since, checked.value) == {}
    {
      var checked := Helper.CheckAndTrimString(path, "path", false, MaxStringLength);
      if checked.Err? {
        return Err(ArgumentException(checked.error));
      }
      var connection := Acquire(db, connections, databaseFileName, env, now, openSucceeds);
      if connection.Err? {
        return Err(connection.error);
      }
      ghost var before := db.tables;
      var count := ClearInactiveAndRelease(connection.value, checked.value, userInactiveSinceDate, now);
      ghost var withApp := WithApplication(before);
      ghost var appId := ApplicationIdIn(withApp, AppName());
      ghost var since := RoundToSeconds(userInactiveSinceDate);
      InactiveClearedKeeps(withApp, appId, since, checked.value);
      InactiveClearedCount(withApp, appId, since, checked.value);
      InactiveClearedLeavesNone(withApp, appId, since, checked.value);
      return Ok(count);
    }

    // -------------------------------------------------------------------
    // FindState

    /** FindSharedState's second pass: each entry of the page is completed
        with its path's per-user size and count, in order; the first path
        whose per-user sum is null throws. */
    method CompleteSharedInfos(items: seq<SharedStateRow>, totals: string -> UserTotals)
      returns (r: Result<seq<StateInfo>, Exception>)
      ensures r == SharedInfosAsWritten(items, totals)
    {
      var infos := [];
      var i := 0;
      while i < |items|
        invariant 0 <= i <= |items|
        invariant SharedInfosAsWritten(items[..i], totals) == Ok(infos)
      {
        assert items[..i + 1][..i] == items[..i];
        var userTotals := totals(items[i].path);
        if userTotals.sizeSum.None? {
          SharedInfosAsWrittenSpec(items, totals);
          return Err(InvalidCastException);
        }
        infos := infos + [SharedStateInfo(items[i].path, items[i].lastUpdated, items[i].size,
                                          userTotals.sizeSum.value, userTotals.count)];
        i := i + 1;
      }
      assert items[..i] == items;
      r := Ok(infos);
    }

    /** FindSharedState before the holder is released, over the shared
        entries the query returns (in path order): the page is taken by the
        one-based paging loop, then completed with the per-user totals. */
    method FindShared(holderCreateDate: int, rows: seq<SharedStateRow>, totals: string -> UserTotals,
                      pageIndex: int, pageSize: int, now: nat)
      returns (r: Result<Paging.Page<StateInfo>, Exception>)
      requires db.Valid() && db.snapshot.None? && idCache.Consistent(db.tables)
      requires IsInt32(pageIndex) && IsInt32(pageSize) && Helper.CheckPageIndexAndSize(pageIndex, pageSize).Pass?
      modifies db, idCache
      ensures db.Valid() && db.snapshot.None? && idCache.Consistent(db.tables) && AppName() == old(AppName())
      ensures db.tables == WithApplication(old(db.tables))
      ensures var infos := SharedInfosAsWritten(Paging.Window(rows, pageIndex, pageSize), totals);
              && (infos.Err? ==> r == Err(infos.error))
              && (infos.Ok? ==> r == Ok(Paging.Page(infos.value, |rows|)))
    {
      var appId := ResolveApplication(holderCreateDate, now);
      var entries := Paging.PageOneBased(rows, pageIndex, pageSize);
      var infos := CompleteSharedInfos(entries.items, totals);
      if infos.Err? {
        return Err(infos.error);
      }
      r := Ok(Paging.Page(infos.value, entries.totalRecords));
    }

    /** FindSharedState once the holder is taken, up to its release, which
        the finally block makes on the throwing path too. */
    method FindSharedAndRelease(holder: ConnectionHolder, rows: seq<SharedStateRow>, totals: string -> UserTotals,
                                pageIndex: int, pageSize: int, now: nat)
      returns (r: Result<Paging.Page<StateInfo>, Exception>)
      requires db.Valid() && db.snapshot.None? && idCache.Consistent(db.tables) && connections.InUse(holder)
      requires IsInt32(pageIndex) && IsInt32(pageSize) && Helper.CheckPageIndexAndSize(pageIndex, pageSize).Pass?
      modifies db, idCache, holder
      ensures Valid() && AppName() == old(AppName())
      ensures db.tables == WithApplication(old(db.tables))
      ensures var window := Paging.Window(rows, pageIndex, pageSize);
              r.Err? ==> r.error == InvalidCastException
                         && exists i :: 0 <= i < |window| && totals(window[i].path).sizeSum.None?
      ensures var window := Paging.Window(rows, pageIndex, pageSize);
              r.Ok? ==> && r.value.totalRecords == |rows|
                        && |r.value.items| == |window|
                        && forall i :: 0 <= i < |window| ==>
                             totals(window[i].path).sizeSum.Some?
                             && r.value.items[i] == SharedInfo(window[i], totals(window[i].path))
    {
      r := FindShared(holder.createDate, rows, totals, pageIndex, pageSize, now);
      Release(db, connections, holder);
      SharedInfosAsWrittenSpec(Paging.Window(rows, pageIndex, pageSize), totals);
      SharedInfosSpec(Paging.Window(rows, pageIndex, pageSize), totals);
    }

    /** FindUserState before the holder is released, over the per-user
        entries the query returns (in path and user name order): the page
        is taken by the one-based paging loop. */
    method FindUsers(holderCreateDate: int, rows: seq<StateInfo>, pageIndex: int, pageSize: int, now: nat)
      returns (page: Paging.Page<StateInfo>)
      requires db.Valid() && db.snapshot.None? && idCache.Consistent(db.tables)
      requires IsInt32(pageIndex) && IsInt32(pageSize) && Helper.CheckPageIndexAndSize(pageIndex, pageSize).Pass?
      modifies db, idCache
      ensures db.Valid() && db.snapshot.None? && idCache.Consistent(db.tables) && AppName() == old(AppName())
      ensures db.tables == WithApplication(old(db.tables))
      ensures page.items == Paging.Window(rows, pageIndex, pageSize) && page.totalRecords == |rows|
    {
      var appId := ResolveApplication(holderCreateDate, now);
      page := Paging.PageOneBased(rows, pageIndex, pageSize);
    }

    /** FindUserState once the holder is taken, up to its release. */
    method FindUsersAndRelease(holder: ConnectionHolder, rows: seq<StateInfo>, pageIndex: int, pageSize: int, now: nat)
      returns (page: Paging.Page<StateInfo>)
      requires db.Valid() && db.snapshot.None? && idCache.Consistent(db.tables) && connections.InUse(holder)
      requires IsInt32(pageIndex) && IsInt32(pageSize) && Helper.CheckPageIndexAndSize(pageIndex, pageSize).Pass?
      modifies db, idCache, holder
      ensures Valid() && AppName() == old(AppName())
      ensures db.tables == WithApplication(old(db.tables))
      ensures page.items == Paging.Window(rows, pageIndex, pageSize) && page.totalRecords == |rows|
    {
      page := FindUsers(holder.createDate, rows, pageIndex, pageSize, now);
      Release(db, connections, holder);
    }

    /** FindState: the scope, the page bounds and the query's patterns are
        checked first (a failed check throws its argument exception and
        changes nothing); then the shared scope returns the page of shared
        entries, each with its path's per-user totals, and throws an invalid
        cast when a path on the page has no per-user rows to sum; the user
        scope returns the page of per-user entries; the total is the number
        of entries the query matched. */
    method FindState(scope: int, query: Option<StateQuery>, pageIndex: int, pageSize: int,
                     sharedRows: seq<SharedStateRow>, totals: string -> UserTotals, userRows: seq<StateInfo>,
                     env: Environment, now: nat, openSucceeds: bool)
      returns (r: Result<Paging.Page<StateInfo>, Exception>)
      requires Valid() && IsInt32(pageIndex) && IsInt32(pageSize)
      modifies db, idCache, connections, connections.Holders()
      ensures Valid() && AppName() == old(AppName())
      ensures FindStateCheck(scope, query, pageIndex, pageSize).Fail? ==>
                r == Err(ArgumentException(FindStateCheck(scope, query, pageIndex, pageSize).error))
      ensures r.Err? && r.error != InvalidCastException ==> db.tables == old(db.tables)
      ensures r == Err(InvalidCastException) ==>
                && scope == Helper.SharedScope
                && FindStateCheck(scope, query, pageIndex, pageSize).Pass?
                && db.tables == WithApplication(old(db.tables))
                && var window := Paging.Window(sharedRows, pageIndex, pageSize);
                   exists i :: 0 <= i < |window| && totals(window[i].path).sizeSum.None?
      ensures r.Ok? ==> FindStateCheck(scope, query, pageIndex, pageSize).Pass? && db.tables == WithApplication(old(db.tables))
      ensures r.Ok? && scope == Helper.SharedScope ==>
                var window := Paging.Window(sharedRows, pageIndex, pageSize);
                && r.value.totalRecords == |sharedRows|
                && |r.value.items| == |window|
                && forall i :: 0 <= i < |window| ==>
                     totals(window[i].path).sizeSum.Some? && r.value.items[i] == SharedInfo(window[i], totals(window[i].path))
      ensures r.Ok? && scope == Helper.UserScope ==>
                r.value.items == Paging.Window(userRows, pageIndex, pageSize) && r.value.totalRecords == |userRows|
    {
      var check := FindStateCheck(scope, query, pageIndex, pageSize);
      if check.Fail? {
        return Err(ArgumentException(check.error));
      }
      var connection := Acquire(db, connections, databaseFileName, env, now, openSucceeds);
      if connection.Err? {
        return Err(connection.error);
      }
      if scope == Helper.SharedScope {
        r := FindSharedAndRelease(connection.value, sharedRows, totals, pageIndex, pageSize, now);
      } else {
        var page := FindUsersAndRelease(connection.value, userRows, pageIndex, pageSize, now);
        r := Ok(page);
      }
    }
  }
}
