/** The page settings of the Access personalization provider: a path's
    Web Parts settings, either shared by all users
    (aspnet_PagePersonalizationAllUsers) or kept per user
    (aspnet_PagePersonalizationPerUser), stored as Base64 text; what saving
    writes and what loading reads. */
module PersonalizationBlobs {
  import opened Common
  import Base64
  import opened AccessStore
  import opened ConnectionHelper
  import opened Identifiers

  type Byte = Base64.Byte

  // ---------------------------------------------------------------------
  // Page settings as text

  /** Serialize: a null or empty blob is the empty string, any other blob
      its Base64 text. */
  function Serialize(data: Option<seq<Byte>>): (r: string)
    ensures r == [] <==> data.None? || data.value == []
  {
    if data.None? || |data.value| == 0 then []
    else
      Base64.EncodeEmpty(data.value);
      Base64.Encode(data.value)
  }

  /** Deserialize: a null or empty string is a null blob; any other string
      is decoded, and text that is not Base64 throws. */
  function Deserialize(data: Option<string>): (r: Result<Option<seq<Byte>>, Exception>)
    ensures data.None? || data.value == [] ==> r == Ok(None)
    ensures r.Ok? && r.value.Some? ==> data.Some? && data.value != []
    ensures r.Err? ==> r.error == FormatException
  {
    if data.None? || |data.value| == 0 then Ok(None)
    else
      match Base64.Decode(data.value)
      case None => Err(FormatException)
      case Some(bytes) => Ok(Some(bytes))
  }

  /** The blob a page gets back: a null or empty blob reads back as null. */
  function Normalized(data: Option<seq<Byte>>): Option<seq<Byte>>
  {
    if data.None? || data.value == [] then None else data
  }

  /** Deserialize(Serialize(d)) is d for a non-empty blob, and null for a
      null or empty one. */
  lemma SerializeRoundTrip(data: Option<seq<Byte>>)
    ensures Deserialize(Some(Serialize(data))) == Ok(Normalized(data))
  {
    if data.Some? && data.value != [] {
      Base64.RoundTrip(data.value);
    }
  }

  // ---------------------------------------------------------------------
  // Saving and loading page settings

  /** The settings text of a path's shared row, if there is one (the
      SELECT PageSettings of the shared table). */
  function SharedSettings(t: Tables, pathId: int): Option<string>
  {
    if pathId in t.sharedBlobs then Some(t.sharedBlobs[pathId].settings) else None
  }

  /** The settings text of a user's row at a path, if there is one. */
  function UserSettings(t: Tables, pathId: int, userId: int): Option<string>
  {
    if (pathId, userId) in t.userBlobs then Some(t.userBlobs[(pathId, userId)].settings) else None
  }

  /** SavePersonalizationBlob's writes, the application's row existing: the
      path is created when missing; with no user name (null or empty) the
      shared row of the path is set, otherwise the user is created when
      missing (not anonymous), the user's activity stamped and the user's
      row at the path set. */
  function BlobSaved(t: Tables, appId: int, path: string, userName: Option<string>, settings: string, stamp: int): Tables
  {
    var withPath := AddPath(t, appId, path);
    var pathId := PathIdIn(withPath, appId, path);
    if userName.None? || userName.value == [] then
      withPath.(sharedBlobs := withPath.sharedBlobs[pathId := Blob(settings, stamp)])
    else
      var withUser := AddUser(withPath, appId, userName.value, false, stamp);
      var userId := UserIdIn(withUser, appId, userName.value);
      var touched := TouchUser(withUser, userId, stamp);
      touched.(userBlobs := withUser.userBlobs[(pathId, userId) := Blob(settings, stamp)])
  }

  /** The UPDATE of a path's shared row affects one row exactly when the
      row is there, and the INSERT that follows otherwise adds it. */
  lemma SharedBlobUpsert(t: Tables, pathId: int, blob: Blob)
    ensures Affected(t, UpdateSharedBlob(pathId, blob)) == 1 <==> pathId in t.sharedBlobs
    ensures pathId in t.sharedBlobs ==>
              Apply(t, UpdateSharedBlob(pathId, blob)) == t.(sharedBlobs := t.sharedBlobs[pathId := blob])
    ensures pathId !in t.sharedBlobs ==>
              Apply(Apply(t, UpdateSharedBlob(pathId, blob)), InsertSharedBlob(pathId, blob))
              == t.(sharedBlobs := t.sharedBlobs[pathId := blob])
  {
  }

  /** The same for a user's row at a path. */
  lemma UserBlobUpsert(t: Tables, pathId: int, userId: int, blob: Blob)
    ensures Affected(t, UpdateUserBlob(pathId, userId, blob)) == 1 <==> (pathId, userId) in t.userBlobs
    ensures (pathId, userId) in t.userBlobs ==>
              Apply(t, UpdateUserBlob(pathId, userId, blob)) == t.(userBlobs := t.userBlobs[(pathId, userId) := blob])
    ensures (pathId, userId) !in t.userBlobs ==>
              Apply(Apply(t, UpdateUserBlob(pathId, userId, blob)), InsertUserBlob(pathId, userId, blob))
              == t.(userBlobs := t.userBlobs[(pathId, userId) := blob])
  {
  }

  /** Every stored settings text decodes, as it does when only this
      provider has written it. */
  predicate Decodable(t: Tables)
  {
    && (forall p :: p in t.sharedBlobs ==> Deserialize(Some(t.sharedBlobs[p].settings)).Ok?)
    && (forall k :: k in t.userBlobs ==> Deserialize(Some(t.userBlobs[k].settings)).Ok?)
  }

  /** What LoadPersonalizationBlobs returns: the shared blob and the user's. */
  datatype LoadedBlobs = LoadedBlobs(shared: Option<seq<Byte>>, user: Option<seq<Byte>>)

  /** The user LoadPersonalizationBlobs reads for: none (0) for a null or
      empty name or an unknown user. */
  function LoadUserId(t: Tables, appId: int, userName: Option<string>): int
  {
    if userName.None? then 0 else UserLookup(t, appId, userName.value)
  }

  /** LoadPersonalizationBlobs: nothing for an unknown path; otherwise the
      decoded shared blob and, for a known user, the decoded user blob; a
      text that does not decode fails with its FormatException. */
  function LoadResult(t: Tables, appId: int, path: string, userName: Option<string>): Result<LoadedBlobs, Exception>
  {
    var pathId := PathIdIn(t, appId, path);
    if pathId == 0 then Ok(LoadedBlobs(None, None))
    else
      var shared := Deserialize(SharedSettings(t, pathId));
      if shared.Err? then Err(shared.error)
      else
        var userId := LoadUserId(t, appId, userName);
        if userId == 0 then Ok(LoadedBlobs(shared.value, None))
        else
          var user := Deserialize(UserSettings(t, pathId, userId));
          if user.Err? then Err(user.error) else Ok(LoadedBlobs(shared.value, user.value))
  }

  /** The tables after LoadPersonalizationBlobs: a known user's activity is
      stamped once the shared blob has decoded, before the user's blob is
      read. */
  function LoadVisited(t: Tables, appId: int, path: string, userName: Option<string>, stamp: int): Tables
  {
    var pathId := PathIdIn(t, appId, path);
    var userId := LoadUserId(t, appId, userName);
    if pathId != 0 && Deserialize(SharedSettings(t, pathId)).Ok? && userId != 0 then TouchUser(t, userId, stamp) else t
  }

  /** A save without a user name, field by field. */
  lemma SharedSaveParts(t: Tables, appId: int, path: string, userName: Option<string>, settings: string, stamp: int)
    requires userName.None? || userName.value == []
    ensures var saved := BlobSaved(t, appId, path, userName, settings, stamp);
            var pathId := PathIdIn(AddPath(t, appId, path), appId, path);
            && saved.paths == AddPath(t, appId, path).paths && saved.users == t.users
            && saved.sharedBlobs == t.sharedBlobs[pathId := Blob(settings, stamp)]
            && saved.userBlobs == t.userBlobs
  {
  }

  /** A save for a user keeps the paths, the shared rows and the user's id
      that AddUser gave. */
  lemma UserSaveKeys(t: Tables, appId: int, path: string, name: string, settings: string, stamp: int)
    requires name != []
    ensures var saved := BlobSaved(t, appId, path, Some(name), settings, stamp);
            var withPath := AddPath(t, appId, path);
            && saved.paths == withPath.paths
            && UserIdIn(saved, appId, name) == UserIdIn(AddUser(withPath, appId, name, false, stamp), appId, name)
            && saved.sharedBlobs == t.sharedBlobs
  {
    var withPath := AddPath(t, appId, path);
    var withUser := AddUser(withPath, appId, name, false, stamp);
    TouchKeepsUser(withUser, UserIdIn(withUser, appId, name), stamp, (appId, name));
  }

  /** A save for a user sets the one row of that user at the path. */
  lemma UserSaveRow(t: Tables, appId: int, path: string, name: string, settings: string, stamp: int)
    requires name != []
    ensures var withPath := AddPath(t, appId, path);
            var pathId := PathIdIn(withPath, appId, path);
            var userId := UserIdIn(AddUser(withPath, appId, name, false, stamp), appId, name);
            BlobSaved(t, appId, path, Some(name), settings, stamp).userBlobs
            == t.userBlobs[(pathId, userId) := Blob(settings, stamp)]
  {
    AddPathParts(t, appId, path);
    AddUserParts(AddPath(t, appId, path), appId, name, false, stamp);
  }

  /** A save for a user, field by field. */
  lemma UserSaveParts(t: Tables, appId: int, path: string, name: string, settings: string, stamp: int)
    requires name != []
    ensures var saved := BlobSaved(t, appId, path, Some(name), settings, stamp);
            var withPath := AddPath(t, appId, path);
            var pathId := PathIdIn(withPath, appId, path);
            var userId := UserIdIn(AddUser(withPath, appId, name, false, stamp), appId, name);
            && saved.paths == withPath.paths
            && UserIdIn(saved, appId, name) == userId
            && saved.sharedBlobs == t.sharedBlobs
            && saved.userBlobs == t.userBlobs[(pathId, userId) := Blob(settings, stamp)]
  {
    UserSaveKeys(t, appId, path, name, settings, stamp);
    UserSaveRow(t, appId, path, name, settings, stamp);
  }

  /** Stamping a user's activity keeps every user's key and id. */
  lemma TouchKeepsUser(t: Tables, userId: int, lastActivity: int, key: (int, string))
    ensures var r := TouchUser(t, userId, lastActivity);
            && r.paths == t.paths && r.sharedBlobs == t.sharedBlobs && r.userBlobs == t.userBlobs
            && r.applications == t.applications
            && (key in r.users <==> key in t.users)
            && (key in t.users ==> r.users[key].id == t.users[key].id)
  {
  }

  /** A save adds no application and renumbers none. */
  lemma SaveKeepsApplications(t: Tables, appId: int, path: string, userName: Option<string>, settings: string, stamp: int)
    ensures BlobSaved(t, appId, path, userName, settings, stamp).applications == t.applications
  {
    var withPath := AddPath(t, appId, path);
    AddPathParts(t, appId, path);
    if userName.Some? && userName.value != [] {
      var withUser := AddUser(withPath, appId, userName.value, false, stamp);
      AddUserParts(withPath, appId, userName.value, false, stamp);
      TouchKeepsUser(withUser, UserIdIn(withUser, appId, userName.value), stamp, (appId, userName.value));
    }
  }

  /** A save stores text that decodes, so whatever decoded still does. */
  lemma SavePreservesDecodable(t: Tables, appId: int, path: string, userName: Option<string>,
                               data: Option<seq<Byte>>, stamp: int)
    requires Decodable(t)
    ensures Decodable(BlobSaved(t, appId, path, userName, Serialize(data), stamp))
  {
    SerializeRoundTrip(data);
    assert Deserialize(Some(Serialize(data))).Ok?;
    if userName.None? || userName.value == [] {
      SharedSaveParts(t, appId, path, userName, Serialize(data), stamp);
    } else {
      UserSaveParts(t, appId, path, userName.value, Serialize(data), stamp);
    }
  }

  /** A save without a user name reads back as the shared blob alone. */
  lemma SharedSaveThenLoad(t: Tables, appId: int, path: string, userName: Option<string>, data: Option<seq<Byte>>, stamp: int)
    requires ValidTables(t) && appId != 0
    requires userName.None? || userName.value == []
    ensures LoadResult(BlobSaved(t, appId, path, userName, Serialize(data), stamp), appId, path, userName)
            == Ok(LoadedBlobs(Normalized(data), None))
  {
    PathIdSpec(t, appId, path, appId, path);
    SerializeRoundTrip(data);
    SharedSaveParts(t, appId, path, userName, Serialize(data), stamp);
  }

  /** A save for a user reads back as that user's blob, beside whatever
      shared blob the page already had. */
  lemma UserSaveThenLoad(t: Tables, appId: int, path: string, name: string, data: Option<seq<Byte>>, stamp: int)
    requires ValidTables(t) && appId != 0 && Decodable(t) && name != []
    ensures var loaded := LoadResult(BlobSaved(t, appId, path, Some(name), Serialize(data), stamp), appId, path, Some(name));
            loaded.Ok? && loaded.value.user == Normalized(data)
  {
    UserSaveFinds(t, appId, path, name, Serialize(data), stamp);
    UserSaveParts(t, appId, path, name, Serialize(data), stamp);
    SerializeRoundTrip(data);
    var saved := BlobSaved(t, appId, path, Some(name), Serialize(data), stamp);
    var withPath := AddPath(t, appId, path);
    var pathId := PathIdIn(withPath, appId, path);
    var userId := UserIdIn(AddUser(withPath, appId, name, false, stamp), appId, name);
    assert Deserialize(SharedSettings(saved, pathId)).Ok?;
    assert UserSettings(saved, pathId, userId) == Some(Serialize(data));
  }

  /** After a save for a user, the load finds the path and the user that
      the save created or found. */
  lemma UserSaveFinds(t: Tables, appId: int, path: string, name: string, settings: string, stamp: int)
    requires ValidTables(t) && appId != 0 && name != []
    ensures var saved := BlobSaved(t, appId, path, Some(name), settings, stamp);
            var withPath := AddPath(t, appId, path);
            && PathIdIn(saved, appId, path) == PathIdIn(withPath, appId, path) != 0
            && LoadUserId(saved, appId, Some(name)) == UserIdIn(AddUser(withPath, appId, name, false, stamp), appId, name) != 0
  {
    var withPath := AddPath(t, appId, path);
    PathIdSpec(t, appId, path, appId, path);
    ApplyPreservesValid(t, InsertPath(appId, path));
    UserIdSpec(withPath, appId, name, false, stamp, appId, name);
    UserSaveKeys(t, appId, path, name, settings, stamp);
  }

  /** What a save writes is what a load returns: the shared blob for no
      user name, the user's blob otherwise, each as Normalized (a null or
      empty blob reads back as null). */
  lemma SaveThenLoad(t: Tables, appId: int, path: string, userName: Option<string>, data: Option<seq<Byte>>, stamp: int)
    requires ValidTables(t) && appId != 0 && Decodable(t)
    ensures var loaded := LoadResult(BlobSaved(t, appId, path, userName, Serialize(data), stamp), appId, path, userName);
            && loaded.Ok?
            && (userName.None? || userName.value == [] ==> loaded.value == LoadedBlobs(Normalized(data), None))
            && (userName.Some? && userName.value != [] ==> loaded.value.user == Normalized(data))
  {
    if userName.None? || userName.value == [] {
      SharedSaveThenLoad(t, appId, path, userName, data, stamp);
    } else {
      UserSaveThenLoad(t, appId, path, userName.value, data, stamp);
    }
  }

  /** A save without a user name changes the one shared row of its path. */
  lemma SharedSaveKeepsOthers(t: Tables, appId: int, path: string, userName: Option<string>, settings: string, stamp: int,
                              otherPath: int, otherUser: int)
    requires userName.None? || userName.value == []
    ensures var saved := BlobSaved(t, appId, path, userName, settings, stamp);
            && (otherPath != PathIdIn(saved, appId, path) ==> SharedSettings(saved, otherPath) == SharedSettings(t, otherPath))
            && UserSettings(saved, otherPath, otherUser) == UserSettings(t, otherPath, otherUser)
  {
    SharedSaveParts(t, appId, path, userName, settings, stamp);
  }

  /** A save for a user changes the one row of that user at its path. */
  lemma UserSaveKeepsOthers(t: Tables, appId: int, path: string, name: string, settings: string, stamp: int,
                            otherPath: int, otherUser: int)
    requires name != []
    ensures var saved := BlobSaved(t, appId, path, Some(name), settings, stamp);
            && SharedSettings(saved, otherPath) == SharedSettings(t, otherPath)
            && ((otherPath, otherUser) != (PathIdIn(saved, appId, path), UserIdIn(saved, appId, name)) ==>
                  UserSettings(saved, otherPath, otherUser) == UserSettings(t, otherPath, otherUser))
  {
    UserSaveParts(t, appId, path, name, settings, stamp);
  }

  /** A save leaves every other page's settings as they were: other paths'
      shared rows, and every row of another path or user. */
  lemma SaveKeepsOthers(t: Tables, appId: int, path: string, userName: Option<string>, settings: string, stamp: int,
                        otherPath: int, otherUser: int)
    ensures var saved := BlobSaved(t, appId, path, userName, settings, stamp);
            var pathId := PathIdIn(saved, appId, path);
            && (otherPath != pathId ==> SharedSettings(saved, otherPath) == SharedSettings(t, otherPath))
            && (userName.Some? && userName.value != [] ==> SharedSettings(saved, otherPath) == SharedSettings(t, otherPath))
            && ((otherPath, otherUser) != (pathId, LoadUserId(saved, appId, userName)) ==>
                  UserSettings(saved, otherPath, otherUser) == UserSettings(t, otherPath, otherUser))
  {
    if userName.None? || userName.value == [] {
      SharedSaveKeepsOthers(t, appId, path, userName, settings, stamp, otherPath, otherUser);
    } else {
      UserSaveKeepsOthers(t, appId, path, userName.value, settings, stamp, otherPath, otherUser);
    }
  }

  /** ResetPersonalizationBlob's delete, the application's row existing:
      nothing for an unknown path; otherwise the shared row of the path for
      no user name (null or empty), or the row of a known user at the
      path. */
  function BlobReset(t: Tables, appId: int, path: string, userName: Option<string>): Tables
  {
    var pathId := PathIdIn(t, appId, path);
    if pathId == 0 then t
    else if userName.None? || userName.value == [] then Apply(t, DeleteSharedBlobsAt(pathId))
    else
      var userId := UserLookup(t, appId, userName.value);
      if userId == 0 then t else Apply(t, DeleteUserBlobsOf(userId, Some(pathId)))
  }

  /** Deleting a path's shared row touches only that row. */
  lemma SharedResetParts(t: Tables, pathId: int)
    ensures var r := Apply(t, DeleteSharedBlobsAt(pathId));
            && r.paths == t.paths && r.users == t.users && r.userBlobs == t.userBlobs
            && r.sharedBlobs == Without(t.sharedBlobs, {pathId})
  {
  }

  /** Deleting a user's rows at one path touches only the row of that user
      at that path. */
  lemma UserResetParts(t: Tables, userId: int, pathId: int)
    ensures var r := Apply(t, DeleteUserBlobsOf(userId, Some(pathId)));
            && r.paths == t.paths && r.users == t.users && r.sharedBlobs == t.sharedBlobs
            && r.userBlobs == Without(t.userBlobs, {(pathId, userId)})
  {
    assert UserBlobsOf(t, userId, Some(pathId)) == t.userBlobs.Keys * {(pathId, userId)};
  }

  /** After a reset the page loads without the settings that were reset:
      no shared blob once the shared row is gone, no user blob once the
      user's row is gone; what remains still decodes. */
  lemma ResetThenLoad(t: Tables, appId: int, path: string, userName: Option<string>)
    requires Decodable(t)
    ensures var loaded := LoadResult(BlobReset(t, appId, path, userName), appId, path, userName);
            && loaded.Ok?
            && (userName.None? || userName.value == [] ==> loaded.value == LoadedBlobs(None, None))
            && (userName.Some? && userName.value != [] ==> loaded.value.user.None?)
  {
    var pathId := PathIdIn(t, appId, path);
    if pathId != 0 {
      if userName.None? || userName.value == [] {
        SharedResetParts(t, pathId);
      } else {
        var userId := UserLookup(t, appId, userName.value);
        if userId != 0 {
          UserResetParts(t, userId, pathId);
          assert UserSettings(BlobReset(t, appId, path, userName), pathId, userId).None?;
        }
      }
    }
  }
}
