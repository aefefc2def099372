/** The connection cache of the Access providers: one holder per database
    name, looked up without regard to case, dropped when its file has
    vanished, and built on first use by classifying the name. A holder
    wraps one driver connection, remembers whether it is open and stands for
    the monitor that serialises its use: `lockDepth` is the number of times
    the current caller has entered that monitor and not yet left it. */
module Connections {
  import opened Common
  import opened ConnectionHelper

  /** What the world outside the helper answers. */
  datatype Environment = Environment(
    existingFiles: set<string>,             // File.Exists
    validMdbFiles: set<string>,             // files the Jet driver opens (EnsureValidMdbFile)
    connectionStrings: map<string, string>, // strings the driver opens as connection strings -> their Data Source
    appRoot: string)                        // HttpRuntime.AppDomainAppPath

  /** The connection-string prefix put in front of a database file name. */
  const ConnPrefix: string := "Provider=Microsoft.Jet.OLEDB.4.0;Data Source="

  /** A built connection: its connection string and its data source file. */
  datatype Target = Target(connectionString: string, dataSource: string)

  /** BuildConnectionForFileName's classification of an uncached name: a
      working connection string is used as it is; a rooted name must be a
      valid database file; a relative name must not contain ".." and is
      resolved under the application root, where it must be a valid database
      file. */
  function Resolve(key: string, env: Environment): (r: Result<Target, Exception>)
  {
    if LooksLikeConnectionString(key) && key in env.connectionStrings then
      Ok(Target(key, env.connectionStrings[key]))
    else if IsPathRooted(key) then
      if key in env.validMdbFiles then Ok(Target(ConnPrefix + key, key))
      else Err(PlainException("AccessFile is not valid: " + key))
    else if ContainsDotDot(key) then
      Err(PlainException("File name can not contain dot dot(..): " + key))
    else
      var filename := GetFullPathNameFromDBFileName(key, env.appRoot);
      if filename in env.validMdbFiles then Ok(Target(ConnPrefix + filename, filename))
      else Err(PlainException("AccessFile is not valid: " + filename))
  }

  /** A relative name that walks up a directory is refused, and a resolved
      file name always points at a valid database file. */
  lemma ResolveSpec(key: string, env: Environment)
    ensures !(LooksLikeConnectionString(key) && key in env.connectionStrings) && !IsPathRooted(key) && ContainsDotDot(key)
            ==> Resolve(key, env).Err?
    ensures Resolve(key, env).Ok? && !(LooksLikeConnectionString(key) && key in env.connectionStrings)
            ==> Resolve(key, env).value.dataSource in env.validMdbFiles
                && Resolve(key, env).value.connectionString == ConnPrefix + Resolve(key, env).value.dataSource
  {
  }

  /** A non-empty name the cache can build also passes the start-up check,
      when every valid database file exists. */
  lemma {:induction false} CheckAcceptsWhatResolves(key: string, env: Environment)
    requires env.validMdbFiles <= env.existingFiles
    requires key != [] && Resolve(key, env).Ok?
    ensures CheckConnectionString(key, env.existingFiles).Pass?
  {
  }

  class ConnectionHolder {
    const dataSource: string
    const connectionString: string
    const createDate: int
    var isOpen: bool
    var lockDepth: nat

    /** An open holder is held by its caller. */
    ghost predicate Valid()
      reads this
    {
      isOpen ==> lockDepth >= 1
    }

    constructor (connectionString: string, dataSource: string, now: int)
      ensures Valid() && !isOpen && lockDepth == 0
      ensures this.connectionString == connectionString && this.dataSource == dataSource && createDate == now
    {
      this.connectionString := connectionString;
      this.dataSource := dataSource;
      createDate := now;
      isOpen := false;
      lockDepth := 0;
    }

    /** Open: enter the monitor; an already open holder stays open (and the
        monitor has been entered once more); otherwise open the connection,
        and if that fails leave the monitor and rethrow. */
    method Open(openSucceeds: bool) returns (r: Outcome<Exception>)
      requires Valid()
      modifies this
      ensures Valid()
      ensures old(isOpen) ==> r.Pass? && isOpen && lockDepth == old(lockDepth) + 1
      ensures !old(isOpen) && openSucceeds ==> r.Pass? && isOpen && lockDepth == old(lockDepth) + 1
      ensures !old(isOpen) && !openSucceeds ==> r == Fail(OleDbException) && !isOpen && lockDepth == old(lockDepth)
    {
      lockDepth := lockDepth + 1;
      if isOpen {
        return Pass;
      }
      if !openSucceeds {
        lockDepth := lockDepth - 1;
        return Fail(OleDbException);
      }
      isOpen := true;
      return Pass;
    }

    /** Close: nothing when not open; otherwise close the connection, clear
        the flag and leave the monitor once. */
    method Close()
      requires Valid()
      modifies this
      ensures Valid() && !isOpen
      ensures lockDepth == if old(isOpen) then old(lockDepth) - 1 else old(lockDepth)
    {
      if !isOpen {
        return;
      }
      isOpen := false;
      lockDepth := lockDepth - 1;
    }
  }

  /** A cached holder with the key it was added under. */
  datatype Entry = Entry(key: string, holder: ConnectionHolder)

  /** The case-insensitive hashtable of holders, keyed by the lower-cased
      name. */
  class ConnectionCache {
    var entries: map<string, Entry>

    ghost predicate Valid()
      reads this
    {
      forall k :: k in entries ==> ToLower(entries[k].key) == k
    }

    ghost function Holders(): set<ConnectionHolder>
      reads this
    {
      set k | k in entries :: entries[k].holder
    }

    /** Between operations no connection is in use: every cached holder is
        closed and its monitor is free. */
    ghost predicate Idle()
      reads this, Holders()
    {
      Valid() && forall k :: k in entries ==> !entries[k].holder.isOpen && entries[k].holder.lockDepth == 0
    }

    /** Only the given holder is in use, its monitor entered once. */
    ghost predicate InUse(holder: ConnectionHolder)
      reads this, Holders()
    {
      && Valid()
      && holder in Holders() && holder.isOpen && holder.lockDepth == 1
      && forall k :: k in entries && entries[k].holder != holder ==>
           !entries[k].holder.isOpen && entries[k].holder.lockDepth == 0
    }

    constructor ()
      ensures Idle() && entries == map[]
    {
      entries := map[];
    }

    /** The eviction step of GetConnection: a cached holder whose data
        source file no longer exists is removed. */
    method Evict(folded: string, existingFiles: set<string>)
      requires Valid()
      modifies this
      ensures Valid()
      ensures entries == if folded in old(entries) && old(entries)[folded].holder.dataSource !in existingFiles
                         then old(entries) - {folded} else old(entries)
      ensures old(Idle()) ==> Idle()
    {
      if folded in entries && entries[folded].holder.dataSource !in existingFiles {
        entries := entries - {folded};
      }
    }

    /** BuildConnectionForFileName: nothing if the name is cached; otherwise
        classify it and add a new closed holder under the original name. */
    method Build(key: string, env: Environment, now: int) returns (r: Outcome<Exception>)
      requires Valid()
      modifies this
      ensures Valid()
      ensures old(Idle()) ==> Idle()
      ensures ToLower(key) in old(entries) ==> r.Pass? && entries == old(entries)
      ensures ToLower(key) !in old(entries) && Resolve(key, env).Err? ==>
                r == Fail(Resolve(key, env).error) && entries == old(entries)
      ensures ToLower(key) !in old(entries) && Resolve(key, env).Ok? ==>
                && r.Pass?
                && ToLower(key) in entries
                && entries == old(entries)[ToLower(key) := entries[ToLower(key)]]
                && entries[ToLower(key)].key == key
                && fresh(entries[ToLower(key)].holder)
                && entries[ToLower(key)].holder.dataSource == Resolve(key, env).value.dataSource
                && entries[ToLower(key)].holder.connectionString == Resolve(key, env).value.connectionString
                && entries[ToLower(key)].holder.createDate == now
                && !entries[ToLower(key)].holder.isOpen
                && entries[ToLower(key)].holder.lockDepth == 0
    {
      ToLowerIdempotent(key);
      var folded := ToLower(key);
      if folded in entries {
        return Pass;
      }
      var target: Target;
      if LooksLikeConnectionString(key) && key in env.connectionStrings {
        target := Target(key, env.connectionStrings[key]);
      } else if IsPathRooted(key) {
        if key !in env.validMdbFiles {
          return Fail(PlainException("AccessFile is not valid: " + key));
        }
        target := Target(ConnPrefix + key, key);
      } else if ContainsDotDot(key) {
        return Fail(PlainException("File name can not contain dot dot(..): " + key));
      } else {
        var filename := GetFullPathNameFromDBFileName(key, env.appRoot);
        if filename !in env.validMdbFiles {
          return Fail(PlainException("AccessFile is not valid: " + filename));
        }
        target := Target(ConnPrefix + filename, filename);
      }
      var holder := new ConnectionHolder(target.connectionString, target.dataSource, now);
      entries := entries[folded := Entry(key, holder)];
      return Pass;
    }

    /** GetConnection: trim the name, drop a cached holder whose file no
        longer exists, build one if none is cached, then open and return it.
        The cache lock is held throughout, so this is one step. */
    method GetConnection(dbFileName: string, env: Environment, now: int, openSucceeds: bool)
      returns (r: Result<ConnectionHolder, Exception>)
      requires Valid()
      requires forall h :: h in Holders() ==> h.Valid()
      modifies this, Holders()
      ensures Valid()
      ensures forall h :: h in Holders() ==> h.Valid()
      ensures var folded := ToLower(Trim(dbFileName));
              var keep := folded in old(entries) && old(entries)[folded].holder.dataSource in env.existingFiles;
              && (keep ==> entries == old(entries))
              && (keep && r.Ok? ==> r.value == old(entries)[folded].holder)
              && (!keep ==> (r.Ok? || r.error == OleDbException <==> Resolve(Trim(dbFileName), env).Ok?))
              && (!keep && Resolve(Trim(dbFileName), env).Err? ==>
                    r == Err(Resolve(Trim(dbFileName), env).error) && entries == old(entries) - {folded})
              && (!keep && r.Ok? ==> fresh(r.value) && r.value.dataSource == Resolve(Trim(dbFileName), env).value.dataSource)
              && (r.Ok? ==> folded in entries && entries[folded].holder == r.value && r.value.isOpen)
              && entries - {folded} == old(entries) - {folded}
      ensures r.Err? ==> r.error == OleDbException || r.error.PlainException?
      ensures old(Idle()) && r.Ok? ==> InUse(r.value)
      ensures old(Idle()) && r.Err? ==> Idle()
    {
      var key := Trim(dbFileName);
      var folded := ToLower(key);
      Evict(folded, env.existingFiles);
      var built := Build(key, env, now);
      if built.Fail? {
        return Err(built.error);
      }
      if folded !in entries {
        assert false;
      }
      r := OpenCached(folded, openSucceeds);
    }

    /** The last step of GetConnection: open the cached holder and return
        it, or rethrow the driver's failure. */
    method OpenCached(folded: string, openSucceeds: bool) returns (r: Result<ConnectionHolder, Exception>)
      requires Valid() && folded in entries
      requires forall h :: h in Holders() ==> h.Valid()
      modifies entries[folded].holder
      ensures forall h :: h in Holders() ==> h.Valid()
      ensures r.Ok? ==> r.value == entries[folded].holder && r.value.isOpen
      ensures r.Err? ==> r.error == OleDbException
      ensures old(Idle()) && r.Ok? ==> InUse(r.value)
      ensures old(Idle()) && r.Err? ==> Idle()
    {
      var holder := entries[folded].holder;
      assert holder in Holders();
      var openResult := holder.Open(openSucceeds);
      if openResult.Fail? {
        return Err(openResult.error);
      }
      return Ok(holder);
    }
  }
}
