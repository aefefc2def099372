/** The argument guards shared by the personalization provider: trimming,
    emptiness, comma and length checks on strings and string arrays, and the
    page-bound check used before any paged query. A .NET null is `None`, a
    thrown ArgumentException is an `Err`/`Fail` carrying the parameter name. */
module PersonalizationProviderHelper {
  import opened Common

  datatype ArgError =
    | ArgumentNull(param: string)
    | ArgumentInvalid(param: string, message: string)
    | ArgumentOutOfRange(param: string)

  /** What one entry of a string array must satisfy once trimmed. */
  predicate AcceptableEntry(trimmed: string, checkCommas: bool, lengthToCheck: int)
  {
    trimmed != []
    && (checkCommas ==> ',' !in trimmed)
    && (lengthToCheck > -1 ==> |trimmed| <= lengthToCheck)
  }

  /** The checks applied to one array entry, in the order they throw. */
  function CheckEntry(entry: Option<string>, paramName: string, checkCommas: bool, lengthToCheck: int)
    : (r: Result<string, ArgError>)
    ensures r.Ok? <==> entry.Some? && AcceptableEntry(Trim(entry.value), checkCommas, lengthToCheck)
    ensures r.Ok? ==> r.value == Trim(entry.value)
  {
    if entry.None? then Err(ArgumentInvalid(paramName, "Null or empty string entries"))
    else
      var trimmedStr := Trim(entry.value);
      if trimmedStr == [] then
        Err(ArgumentInvalid(paramName, "Null or empty string entries"))
      else if checkCommas && IndexOf(trimmedStr, ',') != -1 then
        Err(ArgumentInvalid(paramName, "Cannot have comma in string"))
      else if lengthToCheck > -1 && |trimmedStr| > lengthToCheck then
        Err(ArgumentInvalid(paramName, "Trimmed entry value exceeds maximum length"))
      else
        Ok(trimmedStr)
  }

  /** The entries of a non-empty array checked front to back: the first
      failing entry decides the error, otherwise every entry is trimmed. */
  function CheckEntries(entries: seq<Option<string>>, paramName: string, checkCommas: bool, lengthToCheck: int)
    : (r: Result<seq<string>, ArgError>)
    ensures r.Ok? <==> forall i :: 0 <= i < |entries| ==> CheckEntry(entries[i], paramName, checkCommas, lengthToCheck).Ok?
    ensures r.Ok? ==> |r.value| == |entries|
    ensures r.Ok? ==> forall i :: 0 <= i < |entries| ==> entries[i].Some? && r.value[i] == Trim(entries[i].value)
  {
    if entries == [] then Ok([])
    else
      match CheckEntry(entries[0], paramName, checkCommas, lengthToCheck)
      case Err(e) => Err(e)
      case Ok(t) =>
        var tail := CheckEntries(entries[1..], paramName, checkCommas, lengthToCheck);
        assert forall i :: 1 <= i < |entries| ==> entries[i] == entries[1..][i - 1];
        if tail.Err? then
          Err(tail.error)
        else
          Ok([t] + tail.value)
  }

  /** The first failing entry is the one reported. */
  lemma {:induction false} CheckEntriesReportsFirstFailure(entries: seq<Option<string>>, paramName: string,
                                                           checkCommas: bool, lengthToCheck: int, k: int)
    requires 0 <= k < |entries|
    requires forall j :: 0 <= j < k ==> CheckEntry(entries[j], paramName, checkCommas, lengthToCheck).Ok?
    requires CheckEntry(entries[k], paramName, checkCommas, lengthToCheck).Err?
    ensures CheckEntries(entries, paramName, checkCommas, lengthToCheck)
            == Err(CheckEntry(entries[k], paramName, checkCommas, lengthToCheck).error)
    decreases k
  {
    if k > 0 {
      assert CheckEntry(entries[0], paramName, checkCommas, lengthToCheck).Ok?;
      assert entries[1..][k - 1] == entries[k];
      CheckEntriesReportsFirstFailure(entries[1..], paramName, checkCommas, lengthToCheck, k - 1);
    }
  }

  /** An entry that trimming leaves as it is. */
  predicate Untouched(entry: Option<string>)
  {
    entry.Some? && Trim(entry.value) == entry.value
  }

  /** CheckAndTrimNonEmptyStringEntries. On success the entries come back
      trimmed: in the input array itself when no entry changed under
      trimming, otherwise in a new array. */
  method CheckAndTrimNonEmptyStringEntries(arr: array?<Option<string>>, paramName: string,
                                           throwIfArrayIsNull: bool, checkCommas: bool, lengthToCheck: int)
    returns (r: Result<array?<Option<string>>, ArgError>)
    ensures arr == null ==> r == (if throwIfArrayIsNull then Err(ArgumentNull(paramName)) else Ok(null))
    ensures arr != null && arr.Length == 0 ==> r == Err(ArgumentInvalid(paramName, "Empty Collection"))
    ensures arr != null && arr.Length > 0 && CheckEntries(arr[..], paramName, checkCommas, lengthToCheck).Err? ==>
              r == Err(CheckEntries(arr[..], paramName, checkCommas, lengthToCheck).error)
    ensures arr != null && arr.Length > 0 && CheckEntries(arr[..], paramName, checkCommas, lengthToCheck).Ok? ==>
              r.Ok? && r.value != null && r.value.Length == arr.Length
              && r.value[..] == TrimmedEntries(CheckEntries(arr[..], paramName, checkCommas, lengthToCheck).value)
    ensures r.Ok? && arr != null ==> (r.value == arr <==> forall i :: 0 <= i < arr.Length ==> Untouched(arr[i]))
    ensures r.Ok? && r.value != arr ==> fresh(r.value)
    ensures ArrayChecked(r, CheckArrayEntries(if arr == null then None else Some(arr[..]), paramName,
                                              throwIfArrayIsNull, checkCommas, lengthToCheck))
  {
    if arr == null {
      if throwIfArrayIsNull {
        return Err(ArgumentNull(paramName));
      }
      return Ok(null);
    }
    if arr.Length == 0 {
      return Err(ArgumentInvalid(paramName, "Empty Collection"));
    }
    ghost var checks := EntryChecks(arr[..], paramName, checkCommas, lengthToCheck);
    var result: array?<Option<string>> := null;
    ghost var changedAt := 0;
    var i := 0;
    while i < arr.Length
      invariant 0 <= i <= arr.Length
      invariant forall j :: 0 <= j < i ==> checks[j].Ok?
      invariant result == null ==> forall j :: 0 <= j < i ==> arr[j] == Some(checks[j].value)
      invariant result != null ==> fresh(result) && result.Length == arr.Length && result != arr
      invariant result != null ==> forall j :: 0 <= j < i ==> result[j] == Some(checks[j].value)
      invariant result != null ==> 0 <= changedAt < i && arr[changedAt] != Some(checks[changedAt].value)
    {
      var checked := CheckEntry(arr[i], paramName, checkCommas, lengthToCheck);
      assert checked == checks[i];
      if checked.Err? {
        CheckEntriesReportsFirstFailure(arr[..], paramName, checkCommas, lengthToCheck, i);
        return Err(checked.error);
      }
      var str := arr[i].value;
      var trimmedStr := checked.value;
      if |str| != |trimmedStr| {
        if result == null {
          result := new Option<string>[arr.Length](_ => None);
          forall j | 0 <= j < i {
            result[j] := arr[j];
          }
          changedAt := i;
        }
      } else {
        SameLengthTrimIsIdentity(str);
      }
      if result != null {
        result[i] := Some(trimmedStr);
      }
      i := i + 1;
    }
    AllEntriesPass(arr[..], paramName, checkCommas, lengthToCheck);
    if result != null {
      assert result[..] == TrimmedEntries(CheckEntries(arr[..], paramName, checkCommas, lengthToCheck).value);
      return Ok(result);
    }
    assert arr[..] == TrimmedEntries(CheckEntries(arr[..], paramName, checkCommas, lengthToCheck).value);
    return Ok(arr);
  }

  /** CheckAndTrimNonEmptyStringEntries on the array's contents, a null
      array being None: the trimmed entries, or the error it throws. */
  function CheckArrayEntries(arr: Option<seq<Option<string>>>, paramName: string,
                             throwIfArrayIsNull: bool, checkCommas: bool, lengthToCheck: int)
    : (r: Result<Option<seq<string>>, ArgError>)
    ensures arr.None? ==> r == (if throwIfArrayIsNull then Err(ArgumentNull(paramName)) else Ok(None))
    ensures arr.Some? ==> r.Ok? ==> r.value.Some?
    ensures arr.Some? && |arr.value| == 0 ==> r.Err?
    ensures arr.Some? && |arr.value| > 0 ==>
              (r.Ok? <==> forall i :: 0 <= i < |arr.value| ==>
                            arr.value[i].Some? && AcceptableEntry(Trim(arr.value[i].value), checkCommas, lengthToCheck))
    ensures r.Ok? && arr.Some? ==>
              |r.value.value| == |arr.value| && forall i :: 0 <= i < |arr.value| ==> r.value.value[i] == Trim(arr.value[i].value)
  {
    if arr.None? then
      if throwIfArrayIsNull then Err(ArgumentNull(paramName)) else Ok(None)
    else if |arr.value| == 0 then Err(ArgumentInvalid(paramName, "Empty Collection"))
    else
      match CheckEntries(arr.value, paramName, checkCommas, lengthToCheck)
      case Err(e) => Err(e)
      case Ok(trimmed) => Ok(Some(trimmed))
  }

  /** The array the method returns carries the checked contents. */
  predicate ArrayChecked(r: Result<array?<Option<string>>, ArgError>, checked: Result<Option<seq<string>>, ArgError>)
    reads if r.Ok? && r.value != null then {r.value} else {}
  {
    && (r.Err? <==> checked.Err?)
    && (r.Err? ==> r.error == checked.error)
    && (r.Ok? ==> (r.value == null <==> checked.value.None?))
    && (r.Ok? && r.value != null ==> r.value[..] == TrimmedEntries(checked.value.value))
  }

  /** Every entry's own check, in array order. */
  function EntryChecks(entries: seq<Option<string>>, paramName: string, checkCommas: bool, lengthToCheck: int)
    : (r: seq<Result<string, ArgError>>)
    ensures |r| == |entries|
    ensures forall i :: 0 <= i < |entries| ==> r[i] == CheckEntry(entries[i], paramName, checkCommas, lengthToCheck)
  {
    seq(|entries|, i requires 0 <= i < |entries| => CheckEntry(entries[i], paramName, checkCommas, lengthToCheck))
  }

  /** When every entry passes, the whole array passes, and an entry is left
      as it is exactly when trimming does not change it. */
  lemma AllEntriesPass(entries: seq<Option<string>>, paramName: string, checkCommas: bool, lengthToCheck: int)
    requires forall j :: 0 <= j < |entries| ==> EntryChecks(entries, paramName, checkCommas, lengthToCheck)[j].Ok?
    ensures CheckEntries(entries, paramName, checkCommas, lengthToCheck).Ok?
    ensures TrimmedEntries(CheckEntries(entries, paramName, checkCommas, lengthToCheck).value)
            == seq(|entries|, j requires 0 <= j < |entries| => Some(EntryChecks(entries, paramName, checkCommas, lengthToCheck)[j].value))
    ensures forall j :: 0 <= j < |entries| ==>
              (Untouched(entries[j]) <==> entries[j] == Some(EntryChecks(entries, paramName, checkCommas, lengthToCheck)[j].value))
  {
    var checks := EntryChecks(entries, paramName, checkCommas, lengthToCheck);
    forall j | 0 <= j < |entries|
      ensures CheckEntry(entries[j], paramName, checkCommas, lengthToCheck).Ok?
    {
      assert checks[j] == CheckEntry(entries[j], paramName, checkCommas, lengthToCheck);
    }
  }

  /** Trimming that removes nothing returns the string itself. */
  lemma SameLengthTrimIsIdentity(s: string)
    requires |Trim(s)| == |s|
    ensures Trim(s) == s
  {
    TrimSpec(s);
  }

  /** The trimmed strings as non-null array entries. */
  function TrimmedEntries(trimmed: seq<string>): (r: seq<Option<string>>)
    ensures |r| == |trimmed|
    ensures forall i :: 0 <= i < |trimmed| ==> r[i] == Some(trimmed[i])
  {
    seq(|trimmed|, i requires 0 <= i < |trimmed| => Some(trimmed[i]))
  }

  /** CheckAndTrimString: a null value passes through unless throwIfNull;
      otherwise the trimmed value, which must be non-empty and, when
      lengthToCheck > -1, no longer than it. */
  function CheckAndTrimString(paramValue: Option<string>, paramName: string, throwIfNull: bool, lengthToCheck: int)
    : (r: Result<Option<string>, ArgError>)
    ensures paramValue.None? ==> r == (if throwIfNull then Err(ArgumentNull(paramName)) else Ok(None))
    ensures paramValue.Some? ==>
              (r.Ok? <==> AcceptableEntry(Trim(paramValue.value), false, lengthToCheck))
              && (r.Ok? ==> r.value == Some(Trim(paramValue.value)))
  {
    if paramValue.None? then
      if throwIfNull then Err(ArgumentNull(paramName)) else Ok(None)
    else
      var trimmedValue := Trim(paramValue.value);
      if |trimmedValue| == 0 then
        Err(ArgumentInvalid(paramName, "Cannot be empty string after trimming"))
      else if lengthToCheck > -1 && |trimmedValue| > lengthToCheck then
        Err(ArgumentInvalid(paramName, "Trimmed string exceeds maximum length"))
      else
        Ok(Some(trimmedValue))
  }

  /** CheckAndTrimStringWithoutCommas: null is rejected, and so is a comma
      anywhere in the trimmed value. */
  function CheckAndTrimStringWithoutCommas(paramValue: Option<string>, paramName: string)
    : (r: Result<string, ArgError>)
    ensures r.Ok? <==> paramValue.Some? && Trim(paramValue.value) != [] && ',' !in Trim(paramValue.value)
    ensures r.Ok? ==> r.value == Trim(paramValue.value)
  {
    match CheckAndTrimString(paramValue, paramName, true, -1)
    case Err(e) => Err(e)
    case Ok(trimmed) =>
      if IndexOf(trimmed.value, ',') != -1 then Err(ArgumentInvalid(paramName, "Cannot have comma in string"))
      else Ok(trimmed.value)
  }

  /** The single-string check accepts exactly what the array check accepts
      for one entry without the comma rule, and yields the same value. */
  lemma CheckAndTrimStringAgreesWithEntries(v: string, paramName: string, throwIfNull: bool, lengthToCheck: int)
    ensures CheckAndTrimString(Some(v), paramName, throwIfNull, lengthToCheck).Ok?
            <==> CheckEntries([Some(v)], paramName, false, lengthToCheck).Ok?
    ensures CheckEntries([Some(v)], paramName, false, lengthToCheck).Ok? ==>
              CheckAndTrimString(Some(v), paramName, throwIfNull, lengthToCheck)
              == Ok(Some(CheckEntries([Some(v)], paramName, false, lengthToCheck).value[0]))
  {
  }

  /** A value the string check accepted is accepted again, unchanged. */
  lemma {:induction false} CheckAndTrimStringIdempotent(v: string, paramName: string, throwIfNull: bool, lengthToCheck: int)
    requires CheckAndTrimString(Some(v), paramName, throwIfNull, lengthToCheck).Ok?
    ensures CheckAndTrimString(CheckAndTrimString(Some(v), paramName, throwIfNull, lengthToCheck).value,
                               paramName, throwIfNull, lengthToCheck)
            == CheckAndTrimString(Some(v), paramName, throwIfNull, lengthToCheck)
  {
    TrimIdempotent(v);
  }

  /** CheckOnlyOnePathWithUsers: fails exactly when some usernames are given
      together with more than one path. */
  function CheckOnlyOnePathWithUsers(paths: Option<seq<string>>, usernames: Option<seq<string>>)
    : (r: Outcome<ArgError>)
    ensures r.Fail? <==> usernames.Some? && |usernames.value| > 0 && paths.Some? && |paths.value| > 1
  {
    if usernames.Some? && |usernames.value| > 0 && paths.Some? && |paths.value| > 1 then
      Fail(ArgumentInvalid("paths", "More than one path"))
    else Pass
  }

  /** CheckNegativeInteger. */
  function CheckNegativeInteger(paramValue: int, paramName: string): (r: Outcome<ArgError>)
    ensures r.Pass? <==> paramValue >= 0
  {
    if paramValue < 0 then Fail(ArgumentInvalid(paramName, "Must be non negative")) else Pass
  }

  /** CheckNegativeReturnedInteger. */
  function CheckNegativeReturnedInteger(returnedValue: int, methodName: string): (r: Outcome<ArgError>)
    ensures r.Pass? <==> returnedValue >= 0
  {
    if returnedValue < 0 then Fail(ArgumentInvalid("", "Unexpected return value")) else Pass
  }

  /** CheckNullEntries: the collection must exist, be non-empty and hold no
      null item. */
  function CheckNullEntries<T>(items: Option<seq<Option<T>>>, paramName: string): (r: Outcome<ArgError>)
    ensures r.Pass? <==> items.Some? && |items.value| > 0 && forall i :: 0 <= i < |items.value| ==> items.value[i].Some?
    ensures items.None? ==> r == Fail(ArgumentNull(paramName))
  {
    if items.None? then Fail(ArgumentNull(paramName))
    else if |items.value| == 0 then Fail(ArgumentInvalid(paramName, "Empty collection"))
    else if exists i :: 0 <= i < |items.value| && items.value[i].None? then
      Fail(ArgumentInvalid(paramName, "Null entries in collection"))
    else Pass
  }

  /** The zero-based index of the last row on the requested page, computed
      in 64 bits as the source does (no overflow is possible for Int32
      operands, so the unbounded product is exact). */
  function PageUpperBound(pageIndex: int, pageSize: int): int
  {
    pageIndex * pageSize + pageSize - 1
  }

  /** CheckPageIndexAndSize. */
  function CheckPageIndexAndSize(pageIndex: int, pageSize: int): (r: Outcome<ArgError>)
    requires IsInt32(pageIndex) && IsInt32(pageSize)
    ensures r.Pass? <==> 0 <= pageIndex && 1 <= pageSize && PageUpperBound(pageIndex, pageSize) <= Int32Max
  {
    if pageIndex < 0 then Fail(ArgumentInvalid("pageIndex", "Invalid less than parameter"))
    else if pageSize < 1 then Fail(ArgumentInvalid("pageSize", "Invalid less than parameter"))
    else if PageUpperBound(pageIndex, pageSize) > Int32Max then Fail(ArgumentInvalid("", "Page size too big"))
    else Pass
  }

  /** Once the page bounds pass, the Int32 products the providers compute
      afterwards (first row, last row, one past the last row) cannot wrap. */
  lemma {:induction false} PageBoundsDoNotOverflow(pageIndex: int, pageSize: int)
    requires IsInt32(pageIndex) && IsInt32(pageSize)
    requires CheckPageIndexAndSize(pageIndex, pageSize).Pass?
    ensures Wrap32(pageIndex * pageSize) == pageIndex * pageSize
    ensures 0 <= pageIndex * pageSize <= pageIndex * pageSize + pageSize - 1 <= Int32Max
  {
    assert 0 <= pageIndex * pageSize by {
      MulNonNegative(pageIndex, pageSize);
    }
  }

  lemma MulNonNegative(a: int, b: int)
    requires 0 <= a && 0 <= b
    ensures 0 <= a * b
  {
  }

  const UserScope: int := 0
  const SharedScope: int := 1

  /** CheckPersonalizationScope: the enum value must be User or Shared. */
  function CheckPersonalizationScope(scope: int): (r: Outcome<ArgError>)
    ensures r.Pass? <==> scope == UserScope || scope == SharedScope
  {
    if scope < UserScope || scope > SharedScope then Fail(ArgumentOutOfRange("scope")) else Pass
  }

  /** CheckUsernamesInSharedScope: any usernames array, even an empty one,
      is rejected. */
  function CheckUsernamesInSharedScope(usernames: Option<seq<string>>): (r: Outcome<ArgError>)
    ensures r.Pass? <==> usernames.None?
  {
    if usernames.Some? then Fail(ArgumentInvalid("", "No usernames should be set in shared scope")) else Pass
  }
}
