/** The pure parts of the Access connection helper: how a configured
    database name is classified and resolved to a file, the check the
    providers run on that name at start-up, the rounding of times to whole
    seconds, and the translation of a driver failure into a more telling
    exception. The file system is a set of existing paths, the application
    root directory is a parameter, and the exceptions the providers throw
    are the values of `Exception`. */
module ConnectionHelper {
  import opened Common
  import PersonalizationProviderHelper

  /** The exceptions the data-access layer throws. */
  datatype Exception =
    | ArgumentException(arg: PersonalizationProviderHelper.ArgError)
    | ProviderException(message: string)
    | OleDbException                        // a failure reported by the database driver
    | FileNotFoundException(fileName: string)
    | PlainException(message: string)       // System.Exception with a message
    | IndexOutOfRangeException
    | FormatException                       // a string that is not valid Base64
    | InvalidCastException                  // a database NULL converted to a number

  /** Path.IsPathRooted on Windows: a leading separator or a drive letter. */
  predicate IsPathRooted(s: string)
  {
    (s != [] && (s[0] == '\\' || s[0] == '/')) || (|s| >= 2 && s[1] == ':')
  }

  /** The heuristic for "probably a connection string": it contains both a
      ';' and a '='. */
  predicate LooksLikeConnectionString(s: string)
  {
    IndexOf(s, ';') >= 0 && IndexOf(s, '=') >= 0
  }

  /** CheckConnectionString: a connection string passes; a rooted name must
      be an existing file; a relative name must not start with a separator
      nor contain "..". An empty name fails on its first character. */
  function CheckConnectionString(fileName: string, existingFiles: set<string>): (r: Outcome<Exception>)
    ensures r.Pass? <==>
              LooksLikeConnectionString(fileName)
              || (IsPathRooted(fileName) && fileName in existingFiles)
              || (!IsPathRooted(fileName) && fileName != [] && !ContainsDotDot(fileName))
    ensures r.Fail? && fileName == [] ==> r.error == IndexOutOfRangeException
  {
    if LooksLikeConnectionString(fileName) then Pass
    else if IsPathRooted(fileName) then
      if fileName !in existingFiles then Fail(PlainException("AccessProviders File not found: " + fileName))
      else Pass
    else if fileName == [] then Fail(IndexOutOfRangeException)
    else
      var c := fileName[0];
      if c == '/' || c == '\\' then Fail(PlainException("AccessProviders File can not start with this char: " + [c]))
      else if ContainsDotDot(fileName) then Fail(PlainException("File name can not contain '..': " + fileName))
      else Pass
  }

  /** The leading-separator rule of CheckConnectionString can never fire: a
      name starting with '/' or '\' is rooted, so it passes as an existing
      file or fails as a missing one before that rule is reached. */
  lemma LeadingSeparatorRuleUnreachable(fileName: string, existingFiles: set<string>)
    requires fileName != [] && (fileName[0] == '/' || fileName[0] == '\\')
    ensures CheckConnectionString(fileName, existingFiles).Pass?
            || CheckConnectionString(fileName, existingFiles) == Fail(PlainException("AccessProviders File not found: " + fileName))
  {
  }

  /** Drops one leading "~\", or else one leading "\". */
  function StripRootMarker(s: string): (r: string)
  {
    if StartsWith(s, "~\\") then s[2..]
    else if StartsWith(s, "\\") then s[1..]
    else s
  }

  /** Path.Combine(root, relative): a rooted second part wins, otherwise the
      parts are joined with one separator. */
  function Combine(root: string, relative: string): (r: string)
  {
    if relative == [] then root
    else if root == [] || IsPathRooted(relative) then relative
    else if root[|root| - 1] in {'\\', '/', ':'} then root + relative
    else root + "\\" + relative
  }

  /** GetFullPathNameFromDBFileName: forward slashes become backslashes,
      one "~\" or else one "\" is stripped, and the rest is combined with the
      application root. */
  function GetFullPathNameFromDBFileName(relativeFileName: string, appRoot: string): (r: string)
  {
    Combine(appRoot, StripRootMarker(ReplaceChar(relativeFileName, '/', '\\')))
  }

  /** "~/name", "/name" and "name" all name the same file under the
      application root, for a name that does not itself start with a
      separator. */
  lemma {:induction false} RootMarkersAreEquivalent(name: string, appRoot: string)
    requires name != [] && name[0] != '/' && name[0] != '\\'
    requires !(|name| >= 2 && name[0] == '~' && (name[1] == '/' || name[1] == '\\'))
    ensures GetFullPathNameFromDBFileName("~/" + name, appRoot) == GetFullPathNameFromDBFileName(name, appRoot)
    ensures GetFullPathNameFromDBFileName("/" + name, appRoot) == GetFullPathNameFromDBFileName(name, appRoot)
    ensures GetFullPathNameFromDBFileName("~\\" + name, appRoot) == GetFullPathNameFromDBFileName(name, appRoot)
  {
    var n := ReplaceChar(name, '/', '\\');
    assert n[0] != '\\';
    assert !StartsWith(n, "\\");
    assert !StartsWith(n, "~\\") by {
      assert |n| >= 2 ==> n[..2] != "~\\" by {
        if |n| >= 2 && n[0] == '~' {
          assert n[1] != '\\';
        }
      }
    }
    assert ReplaceChar("~/" + name, '/', '\\') == "~\\" + n;
    assert ReplaceChar("/" + name, '/', '\\') == "\\" + n;
    assert ReplaceChar("~\\" + name, '/', '\\') == "~\\" + n;
    assert StartsWith("~\\" + n, "~\\");
    assert ("~\\" + n)[2..] == n;
    assert ("\\" + n)[0] == '\\';
    assert !StartsWith("\\" + n, "~\\");
    assert StartsWith("\\" + n, "\\");
    assert ("\\" + n)[1..] == n;
  }

  /** A relative name that stays relative after stripping is appended to the
      root: the full path ends with it, and it holds no forward slash. */
  lemma {:induction false} FullPathEndsWithName(relativeFileName: string, appRoot: string)
    requires appRoot != []
    requires !IsPathRooted(StripRootMarker(ReplaceChar(relativeFileName, '/', '\\')))
    ensures var rel := StripRootMarker(ReplaceChar(relativeFileName, '/', '\\'));
            var full := GetFullPathNameFromDBFileName(relativeFileName, appRoot);
            && |rel| <= |full|
            && full[|full| - |rel|..] == rel
            && full[..|appRoot|] == appRoot
            && '/' !in rel
  {
    var n := ReplaceChar(relativeFileName, '/', '\\');
    var rel := StripRootMarker(n);
    assert '/' !in n;
    assert rel == n || rel == n[1..] || rel == n[2..];
    var full := GetFullPathNameFromDBFileName(relativeFileName, appRoot);
    if rel == [] {
      assert full == appRoot;
    } else if appRoot[|appRoot| - 1] in {'\\', '/', ':'} {
      assert full == appRoot + rel;
    } else {
      assert full == appRoot + "\\" + rel;
    }
  }

  /** DateTime ticks per second. */
  const TicksPerSecond: nat := 10_000_000

  /** RoundToSeconds: the same date and time without the fraction of a
      second (DateTime values are non-negative tick counts). */
  function RoundToSeconds(ticks: nat): nat
  {
    ticks - ticks % TicksPerSecond
  }

  /** Rounding drops less than one second, lands on a whole second, is
      idempotent and keeps the order of times. */
  lemma RoundToSecondsSpec(ticks: nat, later: nat)
    requires ticks <= later
    ensures RoundToSeconds(ticks) <= ticks < RoundToSeconds(ticks) + TicksPerSecond
    ensures RoundToSeconds(ticks) % TicksPerSecond == 0
    ensures RoundToSeconds(RoundToSeconds(ticks)) == RoundToSeconds(ticks)
    ensures RoundToSeconds(ticks) <= RoundToSeconds(later)
  {
    var q := ticks / TicksPerSecond;
    var q' := later / TicksPerSecond;
    assert RoundToSeconds(ticks) == q * TicksPerSecond;
    assert RoundToSeconds(later) == q' * TicksPerSecond;
    assert q <= q';
  }

  /** The outcome of trying to open the database file for writing. */
  datatype WriteProbe = WriteSucceeded | UnauthorizedAccess | OtherWriteFailure

  /** GetBetterException: only a driver failure on a connection with a data
      source is looked at; a missing file becomes FileNotFoundException, a
      file that refuses writes for lack of rights becomes "not writable",
      and everything else is returned unchanged. */
  function GetBetterException(e: Exception, dataSource: Option<string>, existingFiles: set<string>, probe: WriteProbe)
    : (r: Exception)
    ensures !e.OleDbException? || dataSource.None? || dataSource.value == [] ==> r == e
    ensures e.OleDbException? && dataSource.Some? && dataSource.value != [] ==>
              r == (if dataSource.value !in existingFiles then FileNotFoundException(dataSource.value)
                    else if probe == UnauthorizedAccess then PlainException("AccessFile is not writtable")
                    else e)
  {
    if !e.OleDbException? || dataSource.None? || |dataSource.value| < 1 then e
    else if dataSource.value !in existingFiles then FileNotFoundException(dataSource.value)
    else if probe.UnauthorizedAccess? then PlainException("AccessFile is not writtable")
    else e
  }

  /** The translation never invents a driver failure and only ever changes
      one, so the errors the providers raise themselves reach the caller as
      raised. */
  lemma BetterExceptionKeepsProviderErrors(e: Exception, dataSource: Option<string>, existingFiles: set<string>, probe: WriteProbe)
    ensures GetBetterException(e, dataSource, existingFiles, probe) != e ==> e.OleDbException?
    ensures !GetBetterException(e, dataSource, existingFiles, probe).OleDbException? || e.OleDbException?
  {
  }
}
