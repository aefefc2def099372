/** Surrogate ids: the lookup-or-create of application, path and user ids
    the connection helper performs against the store (look the key up,
    insert it when asked to and absent, then look it up again), and the
    application id each provider caches between calls. */
module Identifiers {
  import opened Common
  import opened AccessStore
  import opened ConnectionHelper

  /** The id the lookup of an application name yields, 0 when absent. */
  function ApplicationIdIn(t: Tables, name: string): int
  {
    if name in t.applications then t.applications[name] else 0
  }

  /** The id of a path of an application, 0 when absent. */
  function PathIdIn(t: Tables, appId: int, path: string): int
  {
    if (appId, path) in t.paths then t.paths[(appId, path)] else 0
  }

  /** The id of a user of an application, 0 when absent. */
  function UserIdIn(t: Tables, appId: int, userName: string): int
  {
    if (appId, userName) in t.users then t.users[(appId, userName)].id else 0
  }

  /** The user id GetUserID finds without creating: 0 for an empty name. */
  function UserLookup(t: Tables, appId: int, userName: string): int
  {
    if userName == [] then 0 else UserIdIn(t, appId, userName)
  }

  /** A lookup yields a non-zero id exactly for a present name; creating an
      absent name gives it a new positive id and leaves every other name's
      id as it was; creating twice is creating once. */
  lemma {:induction false} ApplicationIdSpec(t: Tables, name: string, other: string)
    requires ValidTables(t)
    ensures ApplicationIdIn(t, name) != 0 <==> name in t.applications
    ensures ApplicationIdIn(AddApplication(t, name), name) >= 1
    ensures name in t.applications ==> AddApplication(t, name) == t
    ensures other != name ==> ApplicationIdIn(AddApplication(t, name), other) == ApplicationIdIn(t, other)
    ensures name !in t.applications && other in t.applications ==>
              ApplicationIdIn(AddApplication(t, name), name) != ApplicationIdIn(t, other)
    ensures AddApplication(AddApplication(t, name), name) == AddApplication(t, name)
  {
    if name !in t.applications {
      assert AddApplication(t, name).applications[name] == t.nextId;
    }
  }

  /** The same for the paths of an application. */
  lemma {:induction false} PathIdSpec(t: Tables, appId: int, path: string, otherApp: int, otherPath: string)
    requires ValidTables(t)
    ensures PathIdIn(t, appId, path) != 0 <==> (appId, path) in t.paths
    ensures PathIdIn(AddPath(t, appId, path), appId, path) >= 1
    ensures (appId, path) in t.paths ==> AddPath(t, appId, path) == t
    ensures (otherApp, otherPath) != (appId, path) ==>
              PathIdIn(AddPath(t, appId, path), otherApp, otherPath) == PathIdIn(t, otherApp, otherPath)
    ensures (appId, path) !in t.paths && (otherApp, otherPath) in t.paths ==>
              PathIdIn(AddPath(t, appId, path), appId, path) != PathIdIn(t, otherApp, otherPath)
  {
    if (appId, path) !in t.paths {
      assert AddPath(t, appId, path).paths[(appId, path)] == t.nextId;
    }
  }

  /** The same for the users of an application. */
  lemma {:induction false} UserIdSpec(t: Tables, appId: int, userName: string, isAnonymous: bool, lastActivity: int,
                                       otherApp: int, otherName: string)
    requires ValidTables(t)
    ensures UserIdIn(t, appId, userName) != 0 <==> (appId, userName) in t.users
    ensures UserIdIn(AddUser(t, appId, userName, isAnonymous, lastActivity), appId, userName) >= 1
    ensures (appId, userName) in t.users ==> AddUser(t, appId, userName, isAnonymous, lastActivity) == t
    ensures (otherApp, otherName) != (appId, userName) ==>
              UserIdIn(AddUser(t, appId, userName, isAnonymous, lastActivity), otherApp, otherName)
              == UserIdIn(t, otherApp, otherName)
    ensures (appId, userName) !in t.users && (otherApp, otherName) in t.users ==>
              UserIdIn(AddUser(t, appId, userName, isAnonymous, lastActivity), appId, userName)
              != UserIdIn(t, otherApp, otherName)
  {
    if (appId, userName) !in t.users {
      assert AddUser(t, appId, userName, isAnonymous, lastActivity).users[(appId, userName)].id == t.nextId;
    }
  }

  /** No statement changes the id of an application already present, so an
      id once looked up stays right however the tables change. */
  lemma ApplicationIdsStable(t: Tables, s: Statement, name: string)
    requires name in t.applications
    ensures ApplicationIdIn(Apply(t, s), name) == ApplicationIdIn(t, name)
  {
    if !TouchesIds(s) {
      OtherStatementKeepsIds(t, s);
    }
  }

  /** GetApplicationID: the application's id; an absent name is inserted
      when createIfNeeded is set and then looked up again; 0 when absent. */
  method GetApplicationID(db: Database, applicationName: string, createIfNeeded: bool) returns (id: int)
    requires db.Valid()
    modifies db
    ensures db.Valid() && db.snapshot == old(db.snapshot)
    ensures db.tables == if createIfNeeded then AddApplication(old(db.tables), applicationName) else old(db.tables)
    ensures id == ApplicationIdIn(db.tables, applicationName)
    ensures createIfNeeded ==> id >= 1
  {
    if applicationName in db.tables.applications {
      return db.tables.applications[applicationName];
    }
    if createIfNeeded {
      ApplicationIdSpec(db.tables, applicationName, applicationName);
      var affected := db.Execute(InsertApplication(applicationName));
      if affected != 0 {
        if applicationName in db.tables.applications {
          return db.tables.applications[applicationName];
        }
      }
    }
    return 0;
  }

  /** GetPathID: the same lookup-or-create for a path of an application. */
  method GetPathID(db: Database, applicationId: int, path: string, createIfNeeded: bool) returns (id: int)
    requires db.Valid()
    modifies db
    ensures db.Valid() && db.snapshot == old(db.snapshot)
    ensures db.tables == if createIfNeeded then AddPath(old(db.tables), applicationId, path) else old(db.tables)
    ensures id == PathIdIn(db.tables, applicationId, path)
    ensures createIfNeeded ==> id >= 1
  {
    if (applicationId, path) in db.tables.paths {
      return db.tables.paths[(applicationId, path)];
    }
    if createIfNeeded {
      PathIdSpec(db.tables, applicationId, path, applicationId, path);
      var affected := db.Execute(InsertPath(applicationId, path));
      if affected != 0 {
        if (applicationId, path) in db.tables.paths {
          return db.tables.paths[(applicationId, path)];
        }
      }
    }
    return 0;
  }

  /** GetUserID: 0 without touching the store when the application id is 0,
      the name is null or empty, or there is no connection; otherwise the
      same lookup-or-create, a new user getting the given anonymity flag
      and the activity time cut to whole seconds. */
  method GetUserID(db: Database?, applicationId: int, userName: Option<string>, createIfNeeded: bool,
                   newUserIsAnonymous: bool, lastActivityDate: nat)
    returns (id: int)
    requires db != null ==> db.Valid()
    modifies db
    ensures db != null ==> db.Valid() && db.snapshot == old(db.snapshot)
    ensures applicationId == 0 || userName.None? || userName.value == [] || db == null ==>
              id == 0 && (db != null ==> db.tables == old(db.tables))
    ensures applicationId != 0 && userName.Some? && userName.value != [] && db != null ==>
              && db.tables == (if createIfNeeded
                               then AddUser(old(db.tables), applicationId, userName.value, newUserIsAnonymous,
                                            RoundToSeconds(lastActivityDate))
                               else old(db.tables))
              && id == UserIdIn(db.tables, applicationId, userName.value)
              && (createIfNeeded ==> id >= 1)
  {
    if applicationId == 0 || userName.None? || |userName.value| < 1 {
      return 0;
    }
    if db == null {
      return 0;
    }
    var name := userName.value;
    if (applicationId, name) in db.tables.users {
      return db.tables.users[(applicationId, name)].id;
    }
    if createIfNeeded {
      var activity := RoundToSeconds(lastActivityDate);
      UserIdSpec(db.tables, applicationId, name, newUserIsAnonymous, activity, applicationId, name);
      var affected := db.Execute(InsertUser(applicationId, name, newUserIsAnonymous, activity));
      if affected != 0 {
        if (applicationId, name) in db.tables.users {
          return db.tables.users[(applicationId, name)].id;
        }
      }
    }
    return 0;
  }

  /** The longest application name the providers store. */
  const MaxApplicationNameLength: nat := 255

  /** The name cut to its first 255 characters. */
  function Truncated(name: string): (r: string)
    ensures |r| <= MaxApplicationNameLength
    ensures |name| <= MaxApplicationNameLength ==> r == name
    ensures r == name[..|r|]
  {
    if |name| > MaxApplicationNameLength then name[..MaxApplicationNameLength] else name
  }

  /** A provider's cached application id: the configured name, the id last
      resolved for it (0 when none) and the time it was resolved. The
      personalization provider reads its name through a getter that puts
      the default name in place of a null or empty one; there the null name
      is the empty string. */
  class ApplicationIdCache {
    var appName: string
    var appId: int
    var cacheDate: int
    const substitutesDefault: bool
    const defaultName: string
    const failureMessage: string

    /** The name the providers resolve. */
    function EffectiveName(): string
      reads this
    {
      if substitutesDefault && appName == [] then defaultName else appName
    }

    /** A cached id is the id of the name in the database. */
    ghost predicate Consistent(t: Tables)
      reads this
    {
      appId != 0 ==> appId == ApplicationIdIn(t, Truncated(EffectiveName()))
    }

    constructor (name: string, substitutesDefault: bool, defaultName: string, failureMessage: string)
      ensures appName == name && appId == 0
      ensures this.substitutesDefault == substitutesDefault && this.defaultName == defaultName
      ensures this.failureMessage == failureMessage
      ensures forall t :: Consistent(t)
    {
      appName := name;
      appId := 0;
      cacheDate := 0;
      this.substitutesDefault := substitutesDefault;
      this.defaultName := defaultName;
      this.failureMessage := failureMessage;
    }

    /** GetApplicationId: the cached id when it is non-zero and the
        connection holder was created before the cache date; otherwise the
        name (through the getter, cut to 255 characters) is looked up and
        created if needed, the cache date is stamped, and a 0 id fails. */
    method GetApplicationId(db: Database, holderCreateDate: int, now: int) returns (r: Result<int, Exception>)
      requires db.Valid()
      modifies this, db
      ensures db.Valid() && db.snapshot == old(db.snapshot)
      ensures old(Consistent(db.tables)) ==> Consistent(db.tables)
      ensures old(appId) != 0 && holderCreateDate < old(cacheDate) ==>
                r == Ok(old(appId)) && db.tables == old(db.tables)
                && appName == old(appName) && appId == old(appId) && cacheDate == old(cacheDate)
      ensures !(old(appId) != 0 && holderCreateDate < old(cacheDate)) ==>
                && appName == old(EffectiveName())
                && db.tables == AddApplication(old(db.tables), Truncated(appName))
                && cacheDate == now
                && r == Ok(appId)
      ensures r.Ok? && r.value != 0
      ensures EffectiveName() == old(EffectiveName())
      ensures old(Consistent(db.tables)) ==> db.tables == AddApplication(old(db.tables), Truncated(EffectiveName()))
      ensures old(Consistent(db.tables)) && r.Ok? ==>
                r.value >= 1 && r.value == ApplicationIdIn(db.tables, Truncated(EffectiveName()))
    {
      if appId != 0 && holderCreateDate < cacheDate {
        return Ok(appId);
      }
      if substitutesDefault && appName == [] {
        appName := defaultName;
      }
      var name := Truncated(appName);
      appId := GetApplicationID(db, name, true);
      cacheDate := now;
      if appId != 0 {
        return Ok(appId);
      }
      return Err(ProviderException(failureMessage));
    }

    /** The ApplicationName setter of the membership and role providers: a
        different name clears the cached id. */
    method SetApplicationName(value: string)
      modifies this
      ensures appName == value
      ensures old(appName) != value ==> appId == 0
      ensures old(appName) == value ==> appId == old(appId)
      ensures cacheDate == old(cacheDate)
      ensures forall t :: old(Consistent(t)) ==> Consistent(t)
    {
      if appName != value {
        appId := 0;
        appName := value;
      }
    }

    /** The ApplicationName setter of the profile and personalization
        providers: a name longer than 255 characters is refused; otherwise
        as above. */
    method SetBoundedApplicationName(value: string) returns (r: Outcome<Exception>)
      modifies this
      ensures |value| > MaxApplicationNameLength ==>
                r == Fail(ProviderException("ApplicationName exceeded max length of 255"))
                && appName == old(appName) && appId == old(appId)
      ensures |value| <= MaxApplicationNameLength ==> r.Pass? && appName == value
      ensures |value| <= MaxApplicationNameLength && old(appName) != value ==> appId == 0
      ensures old(appName) == value ==> appId == old(appId)
      ensures cacheDate == old(cacheDate)
      ensures forall t :: old(Consistent(t)) ==> Consistent(t)
    {
      if |value| > MaxApplicationNameLength {
        return Fail(ProviderException("ApplicationName exceeded max length of 255"));
      }
      SetApplicationName(value);
      return Pass;
    }

    /** The personalization provider's ApplicationName setter as written: a
        name longer than 255 characters is refused, and any other name is
        stored without clearing the cached id. */
    method SetPersonalizationApplicationNameAsWritten(value: string) returns (r: Outcome<Exception>)
      modifies this
      ensures |value| > MaxApplicationNameLength ==>
                r == Fail(ProviderException("ApplicationName exceeded max length of 255"))
                && appName == old(appName)
      ensures |value| <= MaxApplicationNameLength ==> r.Pass? && appName == value
      ensures appId == old(appId) && cacheDate == old(cacheDate)
    {
      if |value| > MaxApplicationNameLength {
        return Fail(ProviderException("ApplicationName exceeded max length of 255"));
      }
      appName := value;
      return Pass;
    }
  }

  /** With the personalization setter as written, renaming the provider
      keeps the old application's id: the next lookup through a holder
      older than the cache date answers the id of "A" for "B". */
  method StaleIdAfterRename() returns (answered: Result<int, Exception>, idOfB: int)
    ensures answered.Ok? && idOfB >= 1 && answered.value != idOfB
  {
    var t0 := AddApplication(AddApplication(EmptyTables, "A"), "B");
    ApplicationIdSpec(EmptyTables, "A", "B");
    ApplicationIdSpec(AddApplication(EmptyTables, "A"), "B", "A");
    var db := new Database(t0);
    var cache := new ApplicationIdCache("A", true, "Default", "Failed to get ApplicationID");
    var first := cache.GetApplicationId(db, 0, 10);
    var renamed := cache.SetPersonalizationApplicationNameAsWritten("B");
    answered := cache.GetApplicationId(db, 5, 20);
    idOfB := ApplicationIdIn(db.tables, "B");
  }
}
